/** Two character loops of `cmd_t::read` (eval.cpp): cutting a script line
    at its `%` comment, and turning unquoted `&` command separators back
    into newlines. Both treat `"` and `#` alike as quote toggles. */
module CommandLine {

  predicate IsQuote(c: char) {
    c == '"' || c == '#'
  }

  /** The number of quote characters in `s`. */
  function QuoteCount(s: string): nat {
    if |s| == 0 then 0
    else QuoteCount(s[..|s| - 1]) + (if IsQuote(s[|s| - 1]) then 1 else 0)
  }

  /** Position `i` of `s` lies outside quotes: an even number of quote
      characters come before it. */
  predicate Unquoted(s: string, i: nat)
    requires i <= |s|
  {
    QuoteCount(s[..i]) % 2 == 0
  }

  lemma QuoteCountSnoc(s: string, i: nat)
    requires i < |s|
    ensures QuoteCount(s[..i + 1]) == QuoteCount(s[..i]) + (if IsQuote(s[i]) then 1 else 0)
  {
    assert s[..i + 1][..i] == s[..i];
  }

  /** The comment cut (eval.cpp:554-567): the line up to its first `%` that
      is outside quotes, or the whole line when there is none. */
  method StripComment(s: string) returns (r: string)
    ensures r <= s
    ensures forall i :: 0 <= i < |r| && r[i] == '%' ==> !Unquoted(s, i)
    ensures |r| < |s| ==> s[|r|] == '%' && Unquoted(s, |r|)
  {
    var inquote := false;
    var cut := -1;
    var i := 0;
    while i < |s|
      invariant 0 <= i <= |s|
      invariant inquote <==> !Unquoted(s, i)
      invariant forall k :: 0 <= k < i && s[k] == '%' ==> !Unquoted(s, k)
      decreases |s| - i
    {
      QuoteCountSnoc(s, i);
      if IsQuote(s[i]) {
        inquote := !inquote;
      }
      if s[i] == '%' && !inquote {
        cut := i;
        break;
      }
      i := i + 1;
    }
    if cut != -1 {
      r := s[..cut];
    } else {
      r := s;
    }
  }

  /** What `StripComment` promises about its result. */
  predicate CommentCut(s: string, r: string) {
    && r <= s
    && (forall i :: 0 <= i < |r| && r[i] == '%' ==> !Unquoted(s, i))
    && (|r| < |s| ==> s[|r|] == '%' && Unquoted(s, |r|))
  }

  /** Those promises fix the result: the cut is at the first unquoted `%`. */
  lemma CommentCutUnique(s: string, r1: string, r2: string)
    requires CommentCut(s, r1) && CommentCut(s, r2)
    ensures r1 == r2
  {
  }

  /** The separator rewrite (eval.cpp:601-610): every `&` outside quotes
      becomes a newline; nothing else changes. */
  method RestoreNewlines(line: string) returns (out: string)
    ensures |out| == |line|
    ensures forall i :: 0 <= i < |line| ==>
              out[i] == (if line[i] == '&' && Unquoted(line, i) then '\n' else line[i])
  {
    out := line;
    var inquote := false;
    var i := 0;
    while i < |line|
      invariant 0 <= i <= |line| && |out| == |line|
      invariant inquote <==> !Unquoted(line, i)
      invariant forall k :: 0 <= k < i ==>
                  out[k] == (if line[k] == '&' && Unquoted(line, k) then '\n' else line[k])
      invariant forall k :: i <= k < |line| ==> out[k] == line[k]
      decreases |line| - i
    {
      QuoteCountSnoc(line, i);
      if IsQuote(line[i]) {
        inquote := !inquote;
      } else if line[i] == '&' {
        if !inquote {
          out := out[i := '\n'];
        }
      }
      i := i + 1;
    }
  }

  /** Two strings that agree on where the quote characters are have the
      same quoting everywhere. */
  lemma {:induction false} SameQuotes(a: string, b: string, n: nat)
    requires n <= |a| == |b|
    requires forall k :: 0 <= k < n ==> (IsQuote(a[k]) <==> IsQuote(b[k]))
    ensures QuoteCount(a[..n]) == QuoteCount(b[..n])
  {
    if n > 0 {
      SameQuotes(a, b, n - 1);
      QuoteCountSnoc(a, n - 1);
      QuoteCountSnoc(b, n - 1);
    }
  }

  /** After the rewrite no `&` is left outside quotes, and the quoting of
      every position is as before; so a second pass changes nothing. */
  lemma RestoreSettles(line: string, out: string)
    requires |out| == |line|
    requires forall i :: 0 <= i < |line| ==>
               out[i] == (if line[i] == '&' && Unquoted(line, i) then '\n' else line[i])
    ensures forall i :: 0 <= i <= |out| ==> (Unquoted(out, i) <==> Unquoted(line, i))
    ensures forall i :: 0 <= i < |out| && out[i] == '&' ==> !Unquoted(out, i)
  {
    forall i | 0 <= i <= |out| ensures Unquoted(out, i) <==> Unquoted(line, i) {
      SameQuotes(out, line, i);
    }
  }
}
