/** Names as strings: trailing dots and ASCII case do not tell them apart. */
module Text {
  function TrimDots(s: string): string {
    if s != "" && s[|s| - 1] == '.' then TrimDots(s[..|s| - 1]) else s
  }

  function LowerChar(c: char): char {
    if 'A' <= c <= 'Z' then c - 'A' + 'a' else c
  }

  function Lower(s: string): (r: string)
    ensures |r| == |s|
  {
    seq(|s|, i requires 0 <= i < |s| => LowerChar(s[i]))
  }

  /** The same character, or the two cases of one ASCII letter. */
  predicate SameLetter(c: char, d: char) {
    || c == d
    || ('A' <= c <= 'Z' && d as int == c as int + 32)
    || ('A' <= d <= 'Z' && c as int == d as int + 32)
  }

  predicate SameUpToCase(a: string, b: string) {
    |a| == |b| && forall i :: 0 <= i < |a| ==> SameLetter(a[i], b[i])
  }

  predicate IsDots(s: string) {
    forall i :: 0 <= i < |s| ==> s[i] == '.'
  }

  predicate NoDotAtEnd(s: string) {
    s == "" || s[|s| - 1] != '.'
  }

  lemma LowerCharIff(c: char, d: char)
    ensures LowerChar(c) == LowerChar(d) <==> SameLetter(c, d)
  {
  }

  /** Lower-casing brings together exactly the names that differ in case only. */
  lemma LowerIff(a: string, b: string)
    ensures Lower(a) == Lower(b) <==> SameUpToCase(a, b)
  {
    hide LowerChar, SameLetter;
    forall i | 0 <= i < |a| && i < |b|
      ensures Lower(a)[i] == Lower(b)[i] <==> SameLetter(a[i], b[i])
    {
      LowerCharIff(a[i], b[i]);
    }
    if SameUpToCase(a, b) {
      assert forall i :: 0 <= i < |a| ==> Lower(a)[i] == Lower(b)[i];
    }
    if Lower(a) == Lower(b) {
      assert |a| == |Lower(a)| && |b| == |Lower(b)|;
    }
  }

  lemma {:induction false} TrimDotsOf(a: string, dots: string)
    requires NoDotAtEnd(a) && IsDots(dots)
    ensures TrimDots(a + dots) == a
  {
    if dots == "" {
      assert a + dots == a;
    } else {
      var n := |dots| - 1;
      assert (a + dots)[..|a + dots| - 1] == a + dots[..n];
      TrimDotsOf(a, dots[..n]);
    }
  }

  /** Every name is one that does not end with a dot, and then dots. */
  lemma {:induction false} DotsSplit(s: string) returns (a: string, dots: string)
    ensures s == a + dots && NoDotAtEnd(a) && IsDots(dots)
  {
    if NoDotAtEnd(s) {
      a, dots := s, "";
    } else {
      var n := |s| - 1;
      var d;
      a, d := DotsSplit(s[..n]);
      dots := d + ".";
    }
  }
}
