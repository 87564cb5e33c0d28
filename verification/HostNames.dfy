/** Which host a pattern stands for, character by character. Every name is a
    core, maybe between brackets, maybe followed by dots; a pattern and a host
    are compared by their cores, up to the case of ASCII letters. */
module HostNames {
  import opened Text
  import opened HostPattern

  predicate AllBrackets(s: string) {
    forall i :: 0 <= i < |s| ==> s[i] == '[' || s[i] == ']'
  }

  predicate NoBracketAtEnds(s: string) {
    s != "" ==> s[0] != '[' && s[0] != ']' && s[|s| - 1] != '[' && s[|s| - 1] != ']'
  }

  ghost predicate IsCore(name: string, core: string) {
    exists a, b, dots :: Around(name, a, core, b, dots)
  }

  predicate Around(name: string, a: string, core: string, b: string, dots: string) {
    && name == a + core + b + dots && AllBrackets(a) && AllBrackets(b) && IsDots(dots)
    && NoBracketAtEnds(core) && NoDotAtEnd(a + core + b)
  }

  lemma {:induction false} TrimBracketsStartOf(a: string, t: string)
    requires AllBrackets(a) && (t != "" ==> !IsBracket(t[0]))
    ensures TrimBracketsStart(a + t) == t
  {
    if a == "" {
      assert a + t == t;
    } else {
      assert (a + t)[1..] == a[1..] + t;
      TrimBracketsStartOf(a[1..], t);
    }
  }

  lemma {:induction false} TrimBracketsEndOf(t: string, b: string)
    requires AllBrackets(b) && (t != "" ==> !IsBracket(t[|t| - 1]))
    ensures TrimBracketsEnd(t + b) == t
  {
    if b == "" {
      assert t + b == t;
    } else {
      assert (t + b)[..|t + b| - 1] == t + b[..|b| - 1];
      TrimBracketsEndOf(t, b[..|b| - 1]);
    }
  }

  lemma TrimBracketsAround(a: string, core: string, b: string)
    requires AllBrackets(a) && AllBrackets(b) && NoBracketAtEnds(core)
    ensures TrimBrackets(a + core + b) == core
  {
    if core == "" {
      assert a + core + b == (a + b) + "";
      TrimBracketsStartOf(a + b, "");
    } else {
      assert a + core + b == a + (core + b);
      TrimBracketsStartOf(a, core + b);
      TrimBracketsEndOf(core, b);
    }
  }

  /** The fold is the core in lower case. */
  lemma FoldIsCore(name: string, core: string)
    requires IsCore(name, core)
    ensures NormalizeHost(name) == Lower(core)
  {
    var a, b, dots :| Around(name, a, core, b, dots);
    TrimDotsOf(a + core + b, dots);
    TrimBracketsAround(a, core, b);
  }

  lemma CoreExists(name: string) returns (core: string)
    ensures IsCore(name, core)
  {
    var t, dots := DotsSplit(name);
    var k := TrimBracketsOf(t);
    core := TrimBrackets(t);
    var a, b := t[..k], t[k + |core|..];
    assert t == a + core + b;
    assert Around(name, a, core, b, dots);
  }

  /** A name without brackets, and then dots. */
  lemma PlainCore(core: string, dots: string)
    requires BracketFree(core) && NoDotAtEnd(core) && IsDots(dots)
    ensures IsCore(core + dots, core)
  {
    assert core == "" + core + "";
    assert core + dots == "" + core + "" + dots;
    assert Around(core + dots, "", core, "", dots);
  }

  lemma MatchesAlone(pattern: string, host: string)
    ensures HostMatchesAny([pattern], host) <==> HostMatches(NormalizePattern(pattern), NormalizeHost(host))
  {
    hide HostMatches, NormalizePattern, NormalizeHost;
    assert [pattern][0] == pattern;
  }

  lemma PatternFoldsToCore(pattern: string, core: string)
    requires IsCore(pattern, core) && core != "*"
    ensures NormalizePattern(pattern) == Lower(core)
  {
    FoldIsCore(pattern, core);
    hide NormalizeHost;
    if |core| == 1 {
      LowerKeeps(core, 0);
      assert core == [core[0]];
    }
  }

  /** A pattern whose core does not start with a star matches exactly the hosts
      whose core is the same, character by character, up to case. */
  lemma NameMatchesIff(pattern: string, p: string, host: string, h: string)
    requires IsCore(pattern, p) && IsCore(host, h) && (p == "" || p[0] != '*')
    ensures HostMatchesAny([pattern], host) <==> SameUpToCase(p, h)
  {
    hide NormalizePattern, NormalizeHost, IsCore;
    MatchesAlone(pattern, host);
    PatternFoldsToCore(pattern, p);
    FoldIsCore(host, h);
    LowerIff(p, h);
    if p != "" {
      LowerKeeps(p, 0);
    }
  }

  /** A name that ends with a dot and then `s`, up to case. */
  ghost predicate DotThen(h: string, s: string) {
    exists i :: 0 <= i < |h| && h[i] == '.' && SameUpToCase(h[i + 1..], s)
  }

  lemma LowerSlice(s: string, i: nat)
    requires i <= |s|
    ensures Lower(s)[i..] == Lower(s[i..]) && Lower(s)[..i] == Lower(s[..i])
  {
  }

  lemma LowerWildcardMatchesIff(s: string, h: string)
    ensures HostMatches("*." + Lower(s), Lower(h)) <==> DotThen(h, s)
  {
    hide HostMatches, SameUpToCase, Lower;
    if HostMatches("*." + Lower(s), Lower(h)) {
      var a := MatchMeansDottedSuffix(Lower(s), Lower(h));
      var i := |a|;
      assert i < |h| && Lower(h)[i] == '.' && Lower(h)[i + 1..] == Lower(s);
      LowerKeeps(h, i);
      LowerSlice(h, i + 1);
      LowerIff(h[i + 1..], s);
    }
    if DotThen(h, s) {
      var i :| 0 <= i < |h| && h[i] == '.' && SameUpToCase(h[i + 1..], s);
      LowerKeeps(h, i);
      LowerSlice(h, i + 1);
      LowerIff(h[i + 1..], s);
      assert Lower(h) == Lower(h)[..i] + "." + Lower(s);
      DottedSuffixMatches(Lower(h)[..i], Lower(s));
    }
  }

  /** A pattern with core `*.s` matches exactly the hosts whose core ends with a
      dot and then `s`, up to case. */
  lemma WildcardMatchesIff(pattern: string, s: string, host: string, h: string)
    requires IsCore(pattern, "*." + s) && IsCore(host, h)
    ensures HostMatchesAny([pattern], host) <==> DotThen(h, s)
  {
    hide NormalizePattern, NormalizeHost, IsCore, HostMatches, DotThen;
    MatchesAlone(pattern, host);
    PatternFoldsToCore(pattern, "*." + s);
    LowerAfterStar(s);
    FoldIsCore(host, h);
    LowerWildcardMatchesIff(s, h);
  }

  /** A star followed by anything but a dot matches nothing. */
  lemma LooseMatchesNothing(pattern: string, p: string, host: string)
    requires IsCore(pattern, p) && |p| >= 2 && p[0] == '*' && p[1] != '.'
    ensures !HostMatchesAny([pattern], host)
  {
    hide NormalizePattern, NormalizeHost, IsCore;
    MatchesAlone(pattern, host);
    PatternFoldsToCore(pattern, p);
    LowerKeeps(p, 0);
    LowerKeeps(p, 1);
  }

  /** The catch-all matches every host. */
  lemma StarMatchesAll(host: string)
    ensures HostMatchesAny(["*"], host)
  {
    MatchesAlone("*", host);
    OnlyStarFoldsToStar("*");
    hide NormalizePattern, NormalizeHost;
  }

  /** A list matches exactly when one of its patterns does. */
  lemma ListMatchesIff(patterns: seq<string>, host: string)
    ensures HostMatchesAny(patterns, host)
            <==> exists i :: 0 <= i < |patterns| && HostMatchesAny([patterns[i]], host)
  {
    hide HostMatches, NormalizePattern, NormalizeHost;
    forall i | 0 <= i < |patterns|
      ensures HostMatchesAny([patterns[i]], host)
              <==> HostMatches(NormalizePattern(patterns[i]), NormalizeHost(host))
    {
      MatchesAlone(patterns[i], host);
    }
  }

  // ------------------------------------------------- what is accepted, exactly

  /** A host whose core is not empty and has no dot at either end. */
  ghost predicate Proper(host: string) {
    exists h :: IsCore(host, h) && h != "" && h[0] != '.' && h[|h| - 1] != '.'
  }

  lemma ProperHasNoEmptyEnd(host: string)
    requires Proper(host)
    ensures !HasEmptyEnd(NormalizeHost(host))
  {
    hide IsCore;
    var h :| IsCore(host, h) && h != "" && h[0] != '.' && h[|h| - 1] != '.';
    FoldIsCore(host, h);
    hide NormalizeHost;
    LowerKeeps(h, 0);
    LowerKeeps(h, |h| - 1);
  }

  lemma PlainIsProper(h: string)
    requires BracketFree(h) && h != "" && h[0] != '.' && h[|h| - 1] != '.'
    ensures IsCore(h, h) && Proper(h)
  {
    PlainCore(h, "");
    assert h + "" == h;
  }

  lemma SameIsSame(s: string)
    ensures SameUpToCase(s, s)
  {
  }

  /** Something an accepted pattern is for. */
  lemma AcceptedMatchesSome(pattern: string) returns (host: string)
    requires BracketFree(pattern) && PatternError(pattern).None?
    ensures Proper(host) && HostMatchesAny([pattern], host)
  {
    var p, dots := DotsSplit(pattern);
    TrimDotsOf(p, dots);
    assert BracketFree(p) by { assert forall i :: 0 <= i < |p| ==> p[i] == pattern[i]; }
    PlainCore(p, dots);
    if pattern == "*" {
      host := "a";
      PlainIsProper(host);
      StarMatchesAll(host);
    } else if pattern[0] != '*' {
      host := p;
      assert p != "" && p[0] == pattern[0] && p[0] != '.';
      PlainIsProper(p);
      SameIsSame(p);
      NameMatchesIff(pattern, p, host, p);
    } else {
      var s := pattern[2..];
      assert pattern == "*." + s;
      AcceptedSuffixIsNotDots(s);
      host := AcceptedWildcardHost(pattern, s);
    }
  }

  lemma AcceptedWildcardHost(pattern: string, s: string) returns (host: string)
    requires BracketFree(pattern) && pattern == "*." + s && TrimDots(s) != ""
    ensures Proper(host) && HostMatchesAny([pattern], host)
  {
    hide IsCore, Proper, PatternError, NormalizePattern, NormalizeHost;
    var t, dots := DotsSplit(s);
    TrimDotsOf(t, dots);
    assert forall i :: 0 <= i < |t| ==> t[i] == pattern[i + 2];
    assert pattern == ("*." + t) + dots;
    PlainCore("*." + t, dots);
    host := "a." + t;
    PlainIsProper(host);
    assert host[1] == '.' && host[2..] == t;
    SameIsSame(t);
    assert DotThen(host, t);
    WildcardMatchesIff(pattern, t, host, host);
  }

  /** A pattern without brackets is accepted exactly if it matches some host
      with a proper name. */
  lemma AcceptedIff(pattern: string)
    requires BracketFree(pattern)
    ensures PatternError(pattern).None? <==> exists host :: Proper(host) && HostMatchesAny([pattern], host)
  {
    hide PatternError, HostMatches, NormalizePattern, NormalizeHost, Proper, HasEmptyEnd;
    if PatternError(pattern).None? {
      var host := AcceptedMatchesSome(pattern);
    } else {
      forall host | Proper(host) ensures !HostMatchesAny([pattern], host) {
        ProperHasNoEmptyEnd(host);
        RefusedPatternsMatchNothingIff(host);
        MatchesAlone(pattern, host);
      }
    }
  }
}
