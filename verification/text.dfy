/** String helpers shared by the parameter store and the command-line
    handling of eval.cpp: byte-wise lexicographic order (the order of
    `std::map<std::string, ...>` keys), joining and splitting on a
    delimiter, and character substitution. */
module Text {

  /** `a` sorts strictly before `b`, comparing character codes and a
      proper prefix first. */
  predicate Less(a: string, b: string) {
    if |a| == 0 then |b| > 0
    else |b| > 0 && (a[0] < b[0] || (a[0] == b[0] && Less(a[1..], b[1..])))
  }

  lemma {:induction false} LessIrreflexive(a: string)
    ensures !Less(a, a)
  {
    if |a| > 0 {
      LessIrreflexive(a[1..]);
    }
  }

  lemma {:induction false} LessTransitive(a: string, b: string, c: string)
    requires Less(a, b) && Less(b, c)
    ensures Less(a, c)
  {
    if |a| > 0 && a[0] == b[0] && b[0] == c[0] {
      LessTransitive(a[1..], b[1..], c[1..]);
    }
  }

  /** Any two strings are equal or ordered one way round. */
  lemma {:induction false} LessTotal(a: string, b: string)
    ensures a == b || Less(a, b) || Less(b, a)
  {
    if |a| > 0 && |b| > 0 && a[0] == b[0] {
      LessTotal(a[1..], b[1..]);
      if a[1..] == b[1..] {
        assert a == [a[0]] + a[1..] && b == [b[0]] + b[1..];
      }
    }
  }

  /** The parts separated by `sep`, with no separator after the last. */
  function Join(parts: seq<string>, sep: string): string {
    if |parts| == 0 then ""
    else if |parts| == 1 then parts[0]
    else parts[0] + sep + Join(parts[1..], sep)
  }

  /** Index of the first occurrence of `c` in `s`. */
  function IndexOf(s: string, c: char): (i: nat)
    requires c in s
    ensures i < |s| && s[i] == c && forall j :: 0 <= j < i ==> s[j] != c
  {
    if s[0] == c then 0 else 1 + IndexOf(s[1..], c)
  }

  /** The pieces of `s` between occurrences of `d` (always at least one). */
  function Split(s: string, d: char): (parts: seq<string>)
    ensures |parts| >= 1
    decreases |s|
  {
    if d !in s then [s]
    else
      var i := IndexOf(s, d);
      [s[..i]] + Split(s[i + 1..], d)
  }

  predicate NoneContain(parts: seq<string>, d: char) {
    forall k :: 0 <= k < |parts| ==> d !in parts[k]
  }

  /** Splitting a joined list recovers the list when no part contains the
      delimiter. */
  lemma {:induction false} SplitJoin(parts: seq<string>, d: char)
    requires |parts| >= 1 && NoneContain(parts, d)
    ensures Split(Join(parts, [d]), d) == parts
  {
    if |parts| > 1 {
      var s := Join(parts, [d]);
      var rest := Join(parts[1..], [d]);
      assert s == parts[0] + [d] + rest;
      assert s[..|parts[0]|] == parts[0];
      assert d in s by { assert s[|parts[0]|] == d; }
      assert forall j :: 0 <= j < |parts[0]| ==> s[j] == parts[0][j] != d;
      assert IndexOf(s, d) == |parts[0]|;
      assert s[|parts[0]| + 1..] == rest;
      SplitJoin(parts[1..], d);
    }
  }

  /** Joining the pieces of a split restores the string. */
  lemma {:induction false} JoinSplit(s: string, d: char)
    ensures Join(Split(s, d), [d]) == s
    decreases |s|
  {
    if d in s {
      var i := IndexOf(s, d);
      JoinSplit(s[i + 1..], d);
      var tail := Split(s[i + 1..], d);
      assert Split(s, d) == [s[..i]] + tail;
      assert ([s[..i]] + tail)[1..] == tail;
      assert s == s[..i] + [d] + s[i + 1..];
    }
  }

  /** The replacement for one character. */
  function Piece(c: char, wc: char, id: string): string {
    if c == wc then id else [c]
  }

  /** Every occurrence of `wc` in `v` replaced by `id`, left to right. */
  function Subst(v: string, wc: char, id: string): string {
    if |v| == 0 then "" else Subst(v[..|v| - 1], wc, id) + Piece(v[|v| - 1], wc, id)
  }

  lemma {:induction false} SubstAppend(a: string, b: string, wc: char, id: string)
    ensures Subst(a + b, wc, id) == Subst(a, wc, id) + Subst(b, wc, id)
    decreases |b|
  {
    if |b| > 0 {
      var b' := b[..|b| - 1];
      assert (a + b)[..|a + b| - 1] == a + b';
      SubstAppend(a, b', wc, id);
    } else {
      assert a + b == a;
    }
  }

  /** Without an occurrence there is nothing to replace. */
  lemma {:induction false} SubstAbsent(v: string, wc: char, id: string)
    requires wc !in v
    ensures Subst(v, wc, id) == v
  {
    if |v| > 0 {
      SubstAbsent(v[..|v| - 1], wc, id);
      assert v == v[..|v| - 1] + [v[|v| - 1]];
    }
  }

  /** When `id` holds no wildcard, no wildcard survives substitution. */
  lemma {:induction false} SubstRemoves(v: string, wc: char, id: string)
    requires wc !in id
    ensures wc !in Subst(v, wc, id)
  {
    if |v| > 0 {
      SubstRemoves(v[..|v| - 1], wc, id);
    }
  }

  /** Substitution is idempotent when `id` holds no wildcard. */
  lemma SubstIdempotent(v: string, wc: char, id: string)
    requires wc !in id
    ensures Subst(Subst(v, wc, id), wc, id) == Subst(v, wc, id)
  {
    SubstRemoves(v, wc, id);
    SubstAbsent(Subst(v, wc, id), wc, id);
  }

  /** Substituting up to and including the next wildcard, with none in
      between. */
  lemma SubstExtend(a: string, b: string, wc: char, id: string)
    requires wc !in b
    ensures Subst(a + b + [wc], wc, id) == Subst(a, wc, id) + b + id
  {
    SubstAbsent(b, wc, id);
    SubstAppend(a, b, wc, id);
    var ab := a + b;
    assert (ab + [wc])[..|ab|] == ab;
  }

  /** A character in a concatenation is in one of its parts. */
  lemma InConcat(a: string, b: string, c: char)
    ensures c in a + b <==> c in a || c in b
  {
    if c in a + b {
      var k :| 0 <= k < |a + b| && (a + b)[k] == c;
      if k >= |a| {
        assert b[k - |a|] == c;
      }
    }
    if c in b {
      var k :| 0 <= k < |b| && b[k] == c;
      assert (a + b)[|a| + k] == c;
    }
    if c in a {
      var k :| 0 <= k < |a| && a[k] == c;
      assert (a + b)[k] == c;
    }
  }

  /** With no `c` in `a`, the first `c` of `a + b` is the first of `b`. */
  lemma FirstAfter(a: string, b: string, c: char)
    requires c !in a && c in a + b
    ensures c in b && IndexOf(a + b, c) == |a| + IndexOf(b, c)
  {
    InConcat(a, b, c);
    var i := IndexOf(a + b, c);
    var j := IndexOf(b, c);
    assert (a + b)[|a| + j] == c;
    assert forall k :: 0 <= k < |a| ==> (a + b)[k] == a[k] != c;
    assert b[i - |a|] == c;
  }

  /** Replacing the character at `|a| + q` of `a + b`. */
  lemma Splice(a: string, b: string, id: string, q: nat)
    requires q < |b|
    ensures var v := a + b;
            v[..|a| + q] + id + v[|a| + q + 1..] == a + b[..q] + id + b[q + 1..]
  {
    assert (a + b)[..|a| + q] == a + b[..q];
    assert (a + b)[|a| + q + 1..] == b[q + 1..];
  }

  /** The loop step on a value split into a substituted part and the rest
      of the original: its first wildcard is the first of the rest. */
  lemma StepSplit(a: string, rest: string, wc: char, id: string) returns (q: nat)
    requires wc !in id && wc in Subst(a, wc, id) + rest
    ensures q < |rest| && rest[q] == wc && wc !in rest[..q]
    ensures var v := Subst(a, wc, id) + rest;
            var p := IndexOf(v, wc);
            v[..p] + id + v[p + 1..] == Subst(a + rest[..q] + [wc], wc, id) + rest[q + 1..]
  {
    var done := Subst(a, wc, id);
    SubstRemoves(a, wc, id);
    FirstAfter(done, rest, wc);
    q := IndexOf(rest, wc);
    var b := rest[..q];
    assert wc !in b by {
      assert forall j :: 0 <= j < q ==> b[j] == rest[j] != wc;
    }
    SubstExtend(a, b, wc, id);
    Splice(done, rest, id, q);
  }

  /** Moving the rest's first `q + 1` characters to the front keeps the
      whole. */
  lemma Regroup(a: string, rest: string, q: nat)
    requires q < |rest|
    ensures a + rest[..q] + [rest[q]] + rest[q + 1..] == a + rest
  {
    assert rest[..q] + [rest[q]] + rest[q + 1..] == rest;
  }

  /** The substitution loop of `param_t::update`: while the value still
      holds the wildcard, replace its first occurrence by `id`. It ends
      because `id` holds no wildcard; `changed` tells whether anything was
      replaced. */
  method ReplaceAll(v0: string, wc: char, id: string) returns (v: string, changed: bool)
    requires wc !in id
    ensures v == Subst(v0, wc, id)
    ensures changed <==> wc in v0
  {
    v := v0;
    changed := false;
    ghost var done, rest := "", v0;
    assert done + rest == v0;
    while wc in v
      invariant done + rest == v0
      invariant v == Subst(done, wc, id) + rest
      invariant changed <==> wc in done
      decreases |rest|
    {
      var p := IndexOf(v, wc);
      var q := StepSplit(done, rest, wc, id);
      Regroup(done, rest, q);
      done, rest := done + rest[..q] + [wc], rest[q + 1..];
      assert done[|done| - 1] == wc;
      v := v[..p] + id + v[p + 1..];
      changed := true;
    }
    DoneSplit(done, rest, wc, id);
  }

  /** The loop's exit on a value split into a substituted part and the
      rest of the original: the rest holds no wildcard. */
  lemma DoneSplit(a: string, rest: string, wc: char, id: string)
    requires wc !in Subst(a, wc, id) + rest
    ensures Subst(a, wc, id) + rest == Subst(a + rest, wc, id)
    ensures wc in a + rest <==> wc in a
  {
    InConcat(Subst(a, wc, id), rest, wc);
    SubstAbsent(rest, wc, id);
    SubstAppend(a, rest, wc, id);
    InConcat(a, rest, wc);
  }
}
