/** Signal aliases (`cmd_t::signal_alias`, eval.cpp:394-433): a line
    `primary|label1|label2...` maps each label to the primary name. The
    program keeps two tables: each mapped label's primary
    (`label_aliases`) and, for each primary, the labels mapped to it in
    order (`primary_alias`). The line arrives already split on `|` and
    unquoted. */
module SignalAliases {
  import opened Wrappers

  datatype Aliases = Aliases(primaryOf: map<string, string>, listed: map<string, seq<string>>)

  datatype AliasHalt =
    | BadFormat                       // fewer than two fields
    | BothPrimaryAndMapped(m: string) // a label that is already a primary
    | DifferentPrimary(m: string)     // a label already mapped elsewhere
    | PrimaryIsMapped(p: string)      // a primary that is already a mapped label

  const NoAliases := Aliases(map[], map[])

  /** The labels mapped to `p` so far. */
  function Listed(st: Aliases, p: string): seq<string> {
    if p in st.listed then st.listed[p] else []
  }

  /** The two tables describe the same relation: every mapped label is
      listed under its primary, and every listed label maps back to the
      primary it is listed under. */
  ghost predicate Consistent(st: Aliases) {
    && (forall m :: m in st.primaryOf ==> st.primaryOf[m] in st.listed && m in st.listed[st.primaryOf[m]])
    && (forall p, i :: p in st.listed && 0 <= i < |st.listed[p]| ==>
          st.listed[p][i] in st.primaryOf && st.primaryOf[st.listed[p][i]] == p)
  }

  /** No name is both a primary and a mapped label ("an alias cannot have
      an alias"). */
  predicate Disjoint(st: Aliases) {
    forall m :: m in st.primaryOf ==> m !in st.listed
  }

  /** Record one mapping `m -> p`. */
  function Bind(st: Aliases, p: string, m: string): (r: Aliases)
    ensures r.primaryOf.Keys == st.primaryOf.Keys + {m} && r.primaryOf[m] == p
    ensures r.listed.Keys == st.listed.Keys + {p} && r.listed[p] == Listed(st, p) + [m]
    ensures forall k :: k in st.primaryOf && k != m ==> r.primaryOf[k] == st.primaryOf[k]
    ensures forall q :: q in st.listed && q != p ==> r.listed[q] == st.listed[q]
  {
    st.(primaryOf := st.primaryOf[m := p], listed := st.listed[p := Listed(st, p) + [m]])
  }

  /** A mapping that agrees with the label's existing primary, if any,
      keeps the tables consistent. */
  lemma BindConsistent(st: Aliases, p: string, m: string)
    requires Consistent(st)
    requires m !in st.primaryOf || st.primaryOf[m] == p
    ensures Consistent(Bind(st, p, m))
  {
    var r := Bind(st, p, m);
    forall q, i | q in r.listed && 0 <= i < |r.listed[q]|
      ensures r.listed[q][i] in r.primaryOf && r.primaryOf[r.listed[q][i]] == q
    {
      if q == p && i == |Listed(st, p)| {
        assert r.listed[q][i] == m;
      } else {
        assert q in st.listed && r.listed[q][i] == st.listed[q][i];
      }
    }
  }

  /** The labels the program lets through for primary `p`: none is already
      a primary (after the first label, `p` itself is one), and none is
      mapped to another primary. */
  predicate AcceptedAsWritten(st: Aliases, p: string, ms: seq<string>) {
    forall j :: 0 <= j < |ms| ==>
      && ms[j] !in st.listed
      && (0 < j ==> ms[j] != p)
      && (ms[j] in st.primaryOf ==> st.primaryOf[ms[j]] == p)
  }

  /** After one label is bound, the rest are let through exactly when
      they were before. */
  lemma AcceptedAsWrittenStep(st: Aliases, p: string, ms: seq<string>)
    requires |ms| > 0 && ms[0] !in st.listed
    requires ms[0] in st.primaryOf ==> st.primaryOf[ms[0]] == p
    ensures AcceptedAsWritten(st, p, ms) <==> AcceptedAsWritten(Bind(st, p, ms[0]), p, ms[1..])
  {
    var b := Bind(st, p, ms[0]);
    if AcceptedAsWritten(b, p, ms[1..]) {
      forall j | 0 < j < |ms|
        ensures ms[j] !in st.listed && ms[j] != p && (ms[j] in st.primaryOf ==> st.primaryOf[ms[j]] == p)
      {
        assert ms[1..][j - 1] == ms[j];
        if ms[j] in st.primaryOf && ms[j] != ms[0] {
          assert b.primaryOf[ms[j]] == st.primaryOf[ms[j]];
        }
      }
    }
    if AcceptedAsWritten(st, p, ms) {
      forall j | 0 <= j < |ms| - 1
        ensures ms[1..][j] !in b.listed && (ms[1..][j] in b.primaryOf ==> b.primaryOf[ms[1..][j]] == p)
      {
        assert ms[1..][j] == ms[j + 1];
      }
    }
  }

  /** The loop over the mapped labels, as written. */
  function MapAllAsWritten(st: Aliases, p: string, ms: seq<string>): (r: Result<Aliases, AliasHalt>)
    ensures r.Success? <==> AcceptedAsWritten(st, p, ms)
    ensures r.Failure? ==> exists j :: 0 <= j < |ms| && r.error in {BothPrimaryAndMapped(ms[j]), DifferentPrimary(ms[j])}
    ensures r.Success? ==> Listed(r.value, p) == Listed(st, p) + ms
    ensures r.Success? ==> forall q :: q in st.listed && q != p ==> q in r.value.listed && r.value.listed[q] == st.listed[q]
    ensures r.Success? ==> r.value.primaryOf.Keys == st.primaryOf.Keys + (set m | m in ms)
    ensures r.Success? ==> forall m :: m in ms ==> r.value.primaryOf[m] == p
    ensures r.Success? ==> forall k :: k in st.primaryOf && k !in ms ==> r.value.primaryOf[k] == st.primaryOf[k]
    ensures r.Success? && |ms| > 0 ==> r.value.listed.Keys == st.listed.Keys + {p}
    ensures r.Failure? ==> r.error != BadFormat
    decreases |ms|
  {
    if |ms| == 0 then Success(st)
    else
      var m := ms[0];
      if m in st.listed then Failure(BothPrimaryAndMapped(m))
      else if m in st.primaryOf && st.primaryOf[m] != p then Failure(DifferentPrimary(m))
      else
        var r := MapAllAsWritten(Bind(st, p, m), p, ms[1..]);
        AcceptedAsWrittenStep(st, p, ms);
        if r.Success? then ListedAfterBind(st, p, ms, r.value); PrimaryAfterBind(st, p, ms, r.value); r
        else FailureInTail(ms, r.error); r
  }

  /** The label table after binding the first label and then the rest. */
  lemma PrimaryAfterBind(st: Aliases, p: string, ms: seq<string>, v: Aliases)
    requires |ms| > 0
    requires v.primaryOf.Keys == Bind(st, p, ms[0]).primaryOf.Keys + (set m | m in ms[1..])
    requires forall m :: m in ms[1..] ==> v.primaryOf[m] == p
    requires forall k :: k in Bind(st, p, ms[0]).primaryOf && k !in ms[1..] ==> v.primaryOf[k] == Bind(st, p, ms[0]).primaryOf[k]
    ensures v.primaryOf.Keys == st.primaryOf.Keys + (set m | m in ms)
    ensures forall m :: m in ms ==> v.primaryOf[m] == p
    ensures forall k :: k in st.primaryOf && k !in ms ==> v.primaryOf[k] == st.primaryOf[k]
  {
    assert forall k :: k in ms <==> k == ms[0] || k in ms[1..] by {
      assert ms == [ms[0]] + ms[1..];
    }
  }

  /** The list of `p` and the other lists after binding the first label
      and then the rest. */
  lemma ListedAfterBind(st: Aliases, p: string, ms: seq<string>, v: Aliases)
    requires |ms| > 0
    requires Listed(v, p) == Listed(Bind(st, p, ms[0]), p) + ms[1..]
    requires forall q :: q in Bind(st, p, ms[0]).listed && q != p ==> q in v.listed && v.listed[q] == Bind(st, p, ms[0]).listed[q]
    ensures Listed(v, p) == Listed(st, p) + ms
    ensures forall q :: q in st.listed && q != p ==> q in v.listed && v.listed[q] == st.listed[q]
  {
    assert ms == [ms[0]] + ms[1..];
  }

  /** A halt on a label of the tail is a halt on a label of the line. */
  lemma FailureInTail(ms: seq<string>, e: AliasHalt)
    requires |ms| > 0
    requires exists j :: 0 <= j < |ms[1..]| && e in {BothPrimaryAndMapped(ms[1..][j]), DifferentPrimary(ms[1..][j])}
    ensures exists j :: 0 <= j < |ms| && e in {BothPrimaryAndMapped(ms[j]), DifferentPrimary(ms[j])}
  {
    var j :| 0 <= j < |ms[1..]| && e in {BothPrimaryAndMapped(ms[1..][j]), DifferentPrimary(ms[1..][j])};
    assert ms[1..][j] == ms[j + 1];
  }

  /** `cmd_t::signal_alias` as written. */
  function SignalAliasAsWritten(st: Aliases, tok: seq<string>): (r: Result<Aliases, AliasHalt>)
    ensures r == Failure(BadFormat) <==> |tok| < 2
    ensures r.Success? <==> |tok| >= 2 && AcceptedAsWritten(st, tok[0], tok[1..])
    ensures r.Failure? && |tok| >= 2 ==>
              exists j :: 1 <= j < |tok| && r.error in {BothPrimaryAndMapped(tok[j]), DifferentPrimary(tok[j])}
    ensures r.Success? ==> forall j :: 1 <= j < |tok| ==> tok[j] in r.value.primaryOf && r.value.primaryOf[tok[j]] == tok[0]
    ensures r.Success? ==> forall k :: k in st.primaryOf && k !in tok[1..] ==> k in r.value.primaryOf && r.value.primaryOf[k] == st.primaryOf[k]
    ensures r.Success? ==> Listed(r.value, tok[0]) == Listed(st, tok[0]) + tok[1..]
    ensures r.Success? ==> forall q :: q in st.listed && q != tok[0] ==> q in r.value.listed && r.value.listed[q] == st.listed[q]
  {
    if |tok| < 2 then Failure(BadFormat)
    else
      var r := MapAllAsWritten(st, tok[0], tok[1..]);
      assert forall j :: 0 <= j < |tok| - 1 ==> tok[1..][j] == tok[j + 1];
      assert forall j :: 1 <= j < |tok| ==> tok[j] in tok[1..] by {
        forall j | 1 <= j < |tok| ensures tok[j] in tok[1..] { assert tok[1..][j - 1] == tok[j]; }
      }
      r
  }

  lemma {:induction false} MapAllAsWrittenConsistent(st: Aliases, p: string, ms: seq<string>)
    requires Consistent(st)
    requires MapAllAsWritten(st, p, ms).Success?
    ensures Consistent(MapAllAsWritten(st, p, ms).value)
    decreases |ms|
  {
    if |ms| > 0 {
      BindConsistent(st, p, ms[0]);
      MapAllAsWrittenConsistent(Bind(st, p, ms[0]), p, ms[1..]);
    }
  }

  /** Rule 1, many-to-one: the two tables stay each other's inverse, so a
      label never ends up under two primaries. */
  lemma SignalAliasAsWrittenConsistent(st: Aliases, tok: seq<string>)
    requires Consistent(st)
    requires SignalAliasAsWritten(st, tok).Success?
    ensures Consistent(SignalAliasAsWritten(st, tok).value)
  {
    MapAllAsWrittenConsistent(st, tok[0], tok[1..]);
  }

  /** Rule 2 is not enforced: after `X|A`, the line `A|B` is accepted and
      `A` becomes a primary while still mapped to `X`. */
  lemma AliasOfAliasAccepted()
    ensures var first := SignalAliasAsWritten(NoAliases, ["X", "A"]);
            && first.Success?
            && Disjoint(first.value)
            && var second := SignalAliasAsWritten(first.value, ["A", "B"]);
            && second.Success?
            && !Disjoint(second.value)
  {
    var first := SignalAliasAsWritten(NoAliases, ["X", "A"]);
    assert ["X", "A"][1..] == ["A"] && ["A"][1..] == [];
    assert first == Success(Bind(NoAliases, "X", "A"));
    assert first.value.primaryOf == map["A" := "X"];
    assert first.value.listed.Keys == {"X"};
    assert ["A", "B"][1..] == ["B"] && ["B"][1..] == [];
    assert MapAllAsWritten(first.value, "A", ["B"]) == MapAllAsWritten(Bind(first.value, "A", "B"), "A", []);
    var second := SignalAliasAsWritten(first.value, ["A", "B"]);
    assert second == Success(Bind(first.value, "A", "B"));
    assert "A" in second.value.listed;
  }

  /** The loop with rule 2 imposed: a label may not be the primary itself. */
  function MapAll(st: Aliases, p: string, ms: seq<string>): (r: Result<Aliases, AliasHalt>)
    ensures r.Success? ==> r.value.primaryOf.Keys == st.primaryOf.Keys + (set m | m in ms)
    ensures r.Success? ==> forall m :: m in ms ==> r.value.primaryOf[m] == p
    ensures r.Success? ==> forall k :: k in st.primaryOf && k !in ms ==> r.value.primaryOf[k] == st.primaryOf[k]
    ensures r.Success? ==> r == MapAllAsWritten(st, p, ms)
    ensures r.Success? ==> p !in ms
    ensures r.Failure? ==> r.error != BadFormat
    decreases |ms|
  {
    if |ms| == 0 then Success(st)
    else
      var m := ms[0];
      if m in st.listed || m == p then Failure(BothPrimaryAndMapped(m))
      else if m in st.primaryOf && st.primaryOf[m] != p then Failure(DifferentPrimary(m))
      else
        var r := MapAll(Bind(st, p, m), p, ms[1..]);
        assert forall k :: k in ms ==> k == m || k in ms[1..];
        r
  }

  /** `cmd_t::signal_alias` with both rules imposed: a primary that is
      already a mapped label is refused too. */
  function SignalAlias(st: Aliases, tok: seq<string>): (r: Result<Aliases, AliasHalt>)
    ensures r == Failure(BadFormat) <==> |tok| < 2
    ensures r.Success? ==> forall j :: 1 <= j < |tok| ==> tok[j] in r.value.primaryOf && r.value.primaryOf[tok[j]] == tok[0]
    ensures r.Success? ==> r == SignalAliasAsWritten(st, tok)
  {
    if |tok| < 2 then Failure(BadFormat)
    else if tok[0] in st.primaryOf then Failure(PrimaryIsMapped(tok[0]))
    else
      var r := MapAll(st, tok[0], tok[1..]);
      assert forall j :: 1 <= j < |tok| ==> tok[j] in tok[1..] by {
        forall j | 1 <= j < |tok| ensures tok[j] in tok[1..] { assert tok[1..][j - 1] == tok[j]; }
      }
      r
  }

  lemma {:induction false} MapAllDisjoint(st: Aliases, p: string, ms: seq<string>)
    requires Disjoint(st) && p !in st.primaryOf
    requires MapAll(st, p, ms).Success?
    ensures Disjoint(MapAll(st, p, ms).value)
    decreases |ms|
  {
    if |ms| > 0 {
      var m := ms[0];
      var b := Bind(st, p, m);
      assert Disjoint(b) && p !in b.primaryOf;
      MapAllDisjoint(b, p, ms[1..]);
    }
  }

  /** Rule 2 holds after every accepted line. */
  lemma SignalAliasDisjoint(st: Aliases, tok: seq<string>)
    requires Disjoint(st)
    requires SignalAlias(st, tok).Success?
    ensures Disjoint(SignalAlias(st, tok).value)
  {
    MapAllDisjoint(st, tok[0], tok[1..]);
  }

  lemma {:induction false} MapAllRefusesOnlyViolations(st: Aliases, p: string, ms: seq<string>)
    requires Disjoint(st) && p !in st.primaryOf
    requires MapAllAsWritten(st, p, ms).Success? && MapAll(st, p, ms).Failure?
    ensures !Disjoint(MapAllAsWritten(st, p, ms).value)
    decreases |ms|
  {
    var m := ms[0];
    var b := Bind(st, p, m);
    if m == p {
      var r := MapAllAsWritten(b, p, ms[1..]);
      assert p in r.value.primaryOf && p in r.value.listed;
    } else {
      MapAllRefusesOnlyViolations(b, p, ms[1..]);
    }
  }

  /** Whatever the corrected rules refuse and the program accepts would
      have broken rule 2; on every other input the two agree. */
  lemma SignalAliasRefusesOnlyViolations(st: Aliases, tok: seq<string>)
    requires Disjoint(st)
    requires SignalAliasAsWritten(st, tok).Success? && SignalAlias(st, tok).Failure?
    ensures !Disjoint(SignalAliasAsWritten(st, tok).value)
  {
    var r := SignalAliasAsWritten(st, tok).value;
    if tok[0] in st.primaryOf {
      assert tok[1] in tok[1..];
      assert tok[0] in r.primaryOf && tok[0] in r.listed;
    } else {
      MapAllRefusesOnlyViolations(st, tok[0], tok[1..]);
    }
  }
}
