/** `param_t` (eval.cpp:36-266): the options of one command, a key-value
    map iterated in ascending key order, with some keys hidden from the
    count. The map is an association list kept strictly ascending by key;
    `Helper::quoted_parse` is not part of this model, so parsing starts
    from its token list. */
module ParamStore {
  import opened Wrappers
  import opened Text

  /** Reasons for which the store halts. */
  datatype ParamHalt =
    | SpecifiedTwice(key: string)      // "... parameter specified twice ..."
    | RequiresParameter(key: string)   // "command requires parameter ..."
    | NoSingleValue                    // "no single value"

  datatype Params = Params(opt: seq<(string, string)>, hidden: set<string>)

  predicate Ascending(opt: seq<(string, string)>) {
    forall i, j :: 0 <= i < j < |opt| ==> Less(opt[i].0, opt[j].0)
  }

  function KeysOf(opt: seq<(string, string)>): set<string> {
    set i | 0 <= i < |opt| :: opt[i].0
  }

  /** What every store satisfies: keys ascend strictly (so each key occurs
      once) and every hidden key is a key. */
  predicate Valid(p: Params) {
    Ascending(p.opt) && p.hidden <= KeysOf(p.opt)
  }

  /** A store with no options. */
  function EmptyParams(): (p: Params)
    ensures Valid(p) && KeysOf(p.opt) == {}
  {
    Params([], {})
  }

  /** `opt.find(k)`. */
  function Find(opt: seq<(string, string)>, k: string): (r: Option<string>)
    ensures r.Some? <==> k in KeysOf(opt)
    ensures r.Some? ==> (k, r.value) in opt
  {
    if |opt| == 0 then None
    else if opt[0].0 == k then Some(opt[0].1)
    else
      var r := Find(opt[1..], k);
      assert KeysOf(opt) == {opt[0].0} + KeysOf(opt[1..]) by {
        assert forall i :: 0 < i < |opt| ==> opt[i] == opt[1..][i - 1];
      }
      r
  }

  /** In an ascending list a key has one entry, so `Find` returns its value. */
  lemma FindUnique(opt: seq<(string, string)>, k: string, v: string)
    requires Ascending(opt) && (k, v) in opt
    ensures Find(opt, k) == Some(v)
  {
    var i :| 0 <= i < |opt| && opt[i] == (k, v);
    var w := Find(opt, k).value;
    var j :| 0 <= j < |opt| && opt[j] == (k, w);
    if i < j {
      LessIrreflexive(k);
    } else if j < i {
      LessIrreflexive(k);
    }
  }

  /** Insert a new key at its place in key order. */
  function Insert(opt: seq<(string, string)>, k: string, v: string): (r: seq<(string, string)>)
    requires Ascending(opt) && k !in KeysOf(opt)
    ensures Ascending(r) && |r| == |opt| + 1
    ensures KeysOf(r) == KeysOf(opt) + {k}
    ensures (k, v) in r
    ensures forall e :: e in opt ==> e in r
    ensures forall e :: e in r ==> e in opt || e == (k, v)
  {
    if |opt| == 0 then [(k, v)]
    else if Less(k, opt[0].0) then
      assert forall e :: e in opt ==> Less(k, e.0) by {
        forall e | e in opt ensures Less(k, e.0) {
          var i :| 0 <= i < |opt| && opt[i] == e;
          if i > 0 {
            LessTransitive(k, opt[0].0, e.0);
          }
        }
      }
      AscendingCons((k, v), opt);
      KeysCons((k, v), opt);
      [(k, v)] + opt
    else
      assert opt == [opt[0]] + opt[1..];
      KeysCons(opt[0], opt[1..]);
      LessTotal(k, opt[0].0);
      var rest := Insert(opt[1..], k, v);
      assert forall e :: e in rest ==> Less(opt[0].0, e.0) by {
        forall e | e in rest ensures Less(opt[0].0, e.0) {
          if e != (k, v) {
            var i :| 0 <= i < |opt| - 1 && opt[1..][i] == e;
            assert opt[i + 1] == e;
          }
        }
      }
      AscendingCons(opt[0], rest);
      KeysCons(opt[0], rest);
      [opt[0]] + rest
  }

  lemma KeysCons(x: (string, string), rest: seq<(string, string)>)
    ensures KeysOf([x] + rest) == {x.0} + KeysOf(rest)
  {
    var l := [x] + rest;
    forall key | key in KeysOf(rest) ensures key in KeysOf(l) {
      var i :| 0 <= i < |rest| && rest[i].0 == key;
      assert l[i + 1] == rest[i];
    }
    assert l[0] == x;
    forall key | key in KeysOf(l) ensures key == x.0 || key in KeysOf(rest) {
      var i :| 0 <= i < |l| && l[i].0 == key;
      if i > 0 {
        assert rest[i - 1] == l[i];
      }
    }
  }

  lemma AscendingCons(x: (string, string), rest: seq<(string, string)>)
    requires Ascending(rest) && forall e :: e in rest ==> Less(x.0, e.0)
    ensures Ascending([x] + rest)
  {
    var l := [x] + rest;
    forall i, j | 0 <= i < j < |l| ensures Less(l[i].0, l[j].0) {
      assert l[j] == rest[j - 1];
      if i > 0 {
        assert l[i] == rest[i - 1];
      }
    }
  }

  /** `param_t::has`. */
  predicate Has(p: Params, k: string) {
    k in KeysOf(p.opt)
  }

  /** `param_t::value`: the value of a key, or "" for an absent one. */
  function Value(p: Params, k: string): (r: string)
    ensures !Has(p, k) ==> r == ""
    ensures Has(p, k) ==> (k, r) in p.opt
  {
    match Find(p.opt, k)
    case None => ""
    case Some(v) => v
  }

  /** `param_t::add`: a key given twice halts; otherwise exactly that key is
      added and the hidden set is unchanged. */
  function Add(p: Params, k: string, v: string): (r: Result<Params, ParamHalt>)
    requires Valid(p)
    ensures r.Failure? <==> Has(p, k)
    ensures r.Failure? ==> r.error == SpecifiedTwice(k)
    ensures r.Success? ==>
              && Valid(r.value)
              && KeysOf(r.value.opt) == KeysOf(p.opt) + {k}
              && Value(r.value, k) == v
              && (forall k' :: k' != k ==> Value(r.value, k') == Value(p, k'))
              && r.value.hidden == p.hidden
  {
    if Has(p, k) then Failure(SpecifiedTwice(k))
    else
      var q := Params(Insert(p.opt, k, v), p.hidden);
      FindUnique(q.opt, k, v);
      assert forall k' :: k' != k ==> Value(q, k') == Value(p, k') by {
        forall k' | k' != k ensures Value(q, k') == Value(p, k') {
          if Has(p, k') {
            FindUnique(q.opt, k', Value(p, k'));
          }
        }
      }
      Success(q)
  }

  /** `param_t::size`: the number of keys that are not hidden. */
  function Size(p: Params): int {
    |p.opt| - |p.hidden|
  }

  /** Distinct keys: an ascending list has as many keys as entries. */
  lemma {:induction false} KeyCount(opt: seq<(string, string)>)
    requires Ascending(opt)
    ensures |KeysOf(opt)| == |opt|
  {
    if |opt| > 0 {
      var rest := opt[1..];
      assert Ascending(rest);
      KeyCount(rest);
      assert opt == [opt[0]] + rest;
      KeysCons(opt[0], rest);
      if opt[0].0 in KeysOf(rest) {
        var i :| 0 <= i < |rest| && rest[i].0 == opt[0].0;
        assert Less(opt[0].0, opt[i + 1].0);
        LessIrreflexive(opt[0].0);
      }
    }
  }

  /** The size counts the visible keys. */
  lemma SizeCountsVisible(p: Params)
    requires Valid(p)
    ensures Size(p) == |KeysOf(p.opt) - p.hidden| >= 0
  {
    KeyCount(p.opt);
    assert |KeysOf(p.opt) - p.hidden| == |KeysOf(p.opt)| - |p.hidden|;
  }

  /** `param_t::add_hidden`: add, then hide the key; the size does not
      change. */
  function AddHidden(p: Params, k: string, v: string): (r: Result<Params, ParamHalt>)
    requires Valid(p)
    ensures r.Failure? <==> Has(p, k)
    ensures r.Failure? ==> r.error == SpecifiedTwice(k)
    ensures r.Success? ==>
              && Valid(r.value)
              && KeysOf(r.value.opt) == KeysOf(p.opt) + {k}
              && Value(r.value, k) == v
              && (forall k' :: k' != k ==> Value(r.value, k') == Value(p, k'))
              && r.value.hidden == p.hidden + {k}
              && Size(r.value) == Size(p)
  {
    match Add(p, k, v)
    case Failure(e) => Failure(e)
    case Success(q) =>
      assert k !in p.hidden;
      Success(q.(hidden := q.hidden + {k}))
  }

  /** The value `parse` gives its key: "T" for a bare key, otherwise the
      tokens after the key rejoined with "=". */
  function ParseValue(tok: seq<string>): (v: string)
    requires |tok| >= 1
    ensures |tok| == 1 ==> v == "T"
    ensures |tok| >= 2 ==> v == Join(tok[1..], "=")
    ensures |tok| == 2 ==> v == tok[1]
    ensures |tok| >= 3 ==> v == tok[1] + "=" + Join(tok[2..], "=")
  {
    if |tok| == 1 then "T"
    else if |tok| == 2 then tok[1]
    else
      assert tok[1..][1..] == tok[2..];
      Join(tok[1..], "=")
  }

  /** Embedded "=" survive: splitting the parsed value on "=" gives back
      the tokens after the key. */
  lemma ParseValueSplits(tok: seq<string>)
    requires |tok| >= 2 && NoneContain(tok[1..], '=')
    ensures Split(ParseValue(tok), '=') == tok[1..]
  {
    SplitJoin(tok[1..], '=');
  }

  /** `param_t::parse` on the tokens of `key=value[=more]`. */
  function Parse(p: Params, tok: seq<string>): (r: Result<Params, ParamHalt>)
    requires Valid(p) && |tok| >= 1
    ensures r.Failure? <==> Has(p, tok[0])
    ensures r.Failure? ==> r.error == SpecifiedTwice(tok[0])
    ensures r.Success? ==> Valid(r.value) && Value(r.value, tok[0]) == ParseValue(tok)
                           && KeysOf(r.value.opt) == KeysOf(p.opt) + {tok[0]}
                           && (forall k' :: k' != tok[0] ==> Value(r.value, k') == Value(p, k'))
                           && r.value.hidden == p.hidden
  {
    Add(p, tok[0], ParseValue(tok))
  }

  /** `param_t::requires`: the value of a key, halting when it is absent. */
  function Requires(p: Params, k: string): (r: Result<string, ParamHalt>)
    ensures r.Failure? <==> !Has(p, k)
    ensures r.Failure? ==> r.error == RequiresParameter(k)
    ensures r.Success? ==> (k, r.value) in p.opt
  {
    if !Has(p, k) then Failure(RequiresParameter(k)) else Success(Value(p, k))
  }

  /** The first key in order that is not hidden, or "" if there is none. */
  function FirstVisible(opt: seq<(string, string)>, hidden: set<string>): (k: string)
    ensures (forall i :: 0 <= i < |opt| ==> opt[i].0 in hidden) ==> k == ""
    ensures (exists i :: 0 <= i < |opt| && opt[i].0 !in hidden) ==>
              exists i :: && 0 <= i < |opt| && opt[i].0 == k && k !in hidden
                          && forall j :: 0 <= j < i ==> opt[j].0 in hidden
  {
    if |opt| == 0 then ""
    else if opt[0].0 !in hidden then opt[0].0
    else
      var r := FirstVisible(opt[1..], hidden);
      assert forall i :: 1 <= i < |opt| ==> opt[i] == opt[1..][i - 1];
      assert (exists i :: 0 <= i < |opt| && opt[i].0 !in hidden) ==>
               exists i :: && 0 <= i < |opt| && opt[i].0 == r && r !in hidden
                           && forall j :: 0 <= j < i ==> opt[j].0 in hidden by {
        if exists i :: 0 <= i < |opt| && opt[i].0 !in hidden {
          var i0 :| 0 <= i0 < |opt| && opt[i0].0 !in hidden;
          assert opt[1..][i0 - 1].0 !in hidden;
          var i :| && 0 <= i < |opt| - 1 && opt[1..][i].0 == r && r !in hidden
                   && forall j :: 0 <= j < i ==> opt[1..][j].0 in hidden;
          assert opt[i + 1].0 == r;
          assert forall j :: 0 <= j < i + 1 ==> opt[j].0 in hidden by {
            forall j | 0 <= j < i + 1 ensures opt[j].0 in hidden {
              if j > 0 { assert opt[j] == opt[1..][j - 1]; }
            }
          }
        }
      }
      r
  }

  /** `param_t::single_value`: with exactly one visible key, that key;
      otherwise a halt. The fall-back "" cannot be reached. */
  function SingleValue(p: Params): (r: Result<string, ParamHalt>)
    requires Valid(p)
    ensures r.Failure? <==> Size(p) != 1
    ensures r.Success? ==> r.value in KeysOf(p.opt) && r.value !in p.hidden
    ensures r.Success? ==> KeysOf(p.opt) - p.hidden == {r.value}
  {
    if Size(p) != 1 then Failure(NoSingleValue)
    else
      SingleVisible(p);
      Success(FirstVisible(p.opt, p.hidden))
  }

  /** With a size of one, the first visible key is the only one. */
  lemma SingleVisible(p: Params)
    requires Valid(p) && Size(p) == 1
    ensures KeysOf(p.opt) - p.hidden == {FirstVisible(p.opt, p.hidden)}
  {
    SizeCountsVisible(p);
    var visible := KeysOf(p.opt) - p.hidden;
    var k0 :| k0 in visible;
    var i :| 0 <= i < |p.opt| && p.opt[i].0 == k0;
    Singleton(visible, FirstVisible(p.opt, p.hidden));
  }

  /** A set of one element is that element's singleton. */
  lemma Singleton<T>(s: set<T>, k: T)
    requires |s| == 1 && k in s
    ensures s == {k}
  {
    assert |s - {k}| == 0;
  }

  /** `param_t::keys`: every key, hidden ones included. */
  function Keys(p: Params): (s: set<string>)
    ensures forall k :: k in s <==> Has(p, k)
    ensures Valid(p) ==> p.hidden <= s
  {
    KeysOf(p.opt)
  }

  /** The `key=value` entries in key order, each after the indent. */
  function Entries(opt: seq<(string, string)>, indent: string): (e: seq<string>)
    ensures |e| == |opt|
  {
    seq(|opt|, i requires 0 <= i < |opt| => indent + opt[i].0 + "=" + opt[i].1)
  }

  /** `param_t::dump`: the entries in the store's (ascending) key order,
      a delimiter after every entry but the last. */
  method Dump(p: Params, indent: string, delim: string) returns (s: string)
    ensures s == Join(Entries(p.opt, indent), delim)
  {
    var e := Entries(p.opt, indent);
    var sz := |p.opt|;
    s := "";
    var cnt := 1;
    assert e[0..] == e;
    while cnt <= sz
      invariant 1 <= cnt <= sz + 1
      invariant s + Join(e[cnt - 1..], delim) == Join(e, delim)
    {
      var entry := indent + p.opt[cnt - 1].0 + "=" + p.opt[cnt - 1].1;
      assert entry == e[cnt - 1];
      DumpStep(e, cnt - 1, delim);
      if cnt == sz {
        s := s + entry;
      } else {
        s := s + entry + delim;
      }
      cnt := cnt + 1;
    }
  }

  /** Emitting entry `k` and its delimiter (none after the last) leaves
      the join of the entries after it. */
  lemma DumpStep(e: seq<string>, k: nat, delim: string)
    requires k < |e|
    ensures k + 1 == |e| ==> Join(e[k..], delim) == e[k] + Join(e[k + 1..], delim)
    ensures k + 1 < |e| ==> Join(e[k..], delim) == e[k] + delim + Join(e[k + 1..], delim)
  {
    var rest := e[k..];
    JoinCons(rest, delim);
    assert rest[1..] == e[k + 1..];
  }

  lemma JoinCons(parts: seq<string>, sep: string)
    requires |parts| >= 1
    ensures |parts| == 1 ==> Join(parts, sep) == parts[0]
    ensures |parts| > 1 ==> Join(parts, sep) == parts[0] + sep + Join(parts[1..], sep)
  {
  }

  /** Splitting a dump on its one-character delimiter gives back the
      entries when no key, value or indent holds the delimiter. */
  lemma DumpSplits(p: Params, indent: string, d: char)
    requires |p.opt| >= 1
    requires d !in indent && d != '='
    requires forall i :: 0 <= i < |p.opt| ==> d !in p.opt[i].0 && d !in p.opt[i].1
    ensures Split(Join(Entries(p.opt, indent), [d]), d) == Entries(p.opt, indent)
  {
    var e := Entries(p.opt, indent);
    forall k | 0 <= k < |e| ensures d !in e[k] {
      assert e[k] == indent + p.opt[k].0 + "=" + p.opt[k].1;
    }
    SplitJoin(e, d);
  }

  /** `param_t::update`: every wildcard in every value becomes `id`; keys,
      key order and hidden keys are unchanged. */
  function Substituted(p: Params, id: string, wc: char): (q: Params)
    ensures |q.opt| == |p.opt| && q.hidden == p.hidden
    ensures forall i :: 0 <= i < |p.opt| ==> q.opt[i].0 == p.opt[i].0
  {
    Params(seq(|p.opt|, i requires 0 <= i < |p.opt| => (p.opt[i].0, Subst(p.opt[i].1, wc, id))), p.hidden)
  }

  /** After an update no value holds the wildcard, and a second update
      changes nothing. */
  lemma UpdateSettles(p: Params, id: string, wc: char)
    requires wc !in id
    ensures forall i :: 0 <= i < |p.opt| ==> wc !in Substituted(p, id, wc).opt[i].1
    ensures Substituted(Substituted(p, id, wc), id, wc) == Substituted(p, id, wc)
  {
    var q := Substituted(p, id, wc);
    forall i | 0 <= i < |p.opt| ensures wc !in q.opt[i].1 && Subst(q.opt[i].1, wc, id) == q.opt[i].1 {
      SubstIdempotent(p.opt[i].1, wc, id);
      SubstRemoves(p.opt[i].1, wc, id);
    }
  }

  /** The update loop over the store, entry by entry in key order. The
      inner loop ends when `id` holds no wildcard or when no value holds
      one; otherwise each replacement brings the wildcard back. */
  method Update(p: Params, id: string, wc: char) returns (q: Params)
    requires wc !in id || forall i :: 0 <= i < |p.opt| ==> wc !in p.opt[i].1
    ensures q == Substituted(p, id, wc)
    ensures Valid(p) ==> Valid(q)
  {
    var opt := p.opt;
    var i := 0;
    while i < |opt|
      invariant 0 <= i <= |opt| == |p.opt|
      invariant forall j :: 0 <= j < i ==> opt[j] == (p.opt[j].0, Subst(p.opt[j].1, wc, id))
      invariant forall j :: i <= j < |opt| ==> opt[j] == p.opt[j]
    {
      if wc in opt[i].1 {
        var v, changed := ReplaceAll(opt[i].1, wc, id);
        opt := opt[i := (opt[i].0, v)];
      } else {
        SubstAbsent(opt[i].1, wc, id);
      }
      i := i + 1;
    }
    q := Params(opt, p.hidden);
    assert KeysOf(q.opt) == KeysOf(p.opt) by {
      assert forall j :: 0 <= j < |opt| ==> opt[j].0 == p.opt[j].0;
    }
  }
}
