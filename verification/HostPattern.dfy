/** The one host-pattern rule: an exact name, a dotted wildcard, or the
    catch-all (crates/nexapipe-proto/src/host.rs). */
module HostPattern {
  import opened Wrappers
  import opened Text

  predicate IsBracket(c: char) {
    c == '[' || c == ']'
  }

  function TrimBracketsStart(s: string): string {
    if s != "" && IsBracket(s[0]) then TrimBracketsStart(s[1..]) else s
  }

  function TrimBracketsEnd(s: string): string {
    if s != "" && IsBracket(s[|s| - 1]) then TrimBracketsEnd(s[..|s| - 1]) else s
  }

  function TrimBrackets(s: string): string {
    TrimBracketsEnd(TrimBracketsStart(s))
  }

  function NormalizeHost(host: string): string {
    Lower(TrimBrackets(TrimDots(host)))
  }

  function NormalizePattern(pattern: string): string {
    var folded := NormalizeHost(pattern);
    if folded == "*" && pattern != "*" then Lower(pattern) else folded
  }

  function StripSuffix(s: string, suffix: string): Option<string> {
    if |suffix| <= |s| && s[|s| - |suffix|..] == suffix then Some(s[..|s| - |suffix|]) else None
  }

  predicate StartsWith(s: string, c: char) {
    s != "" && s[0] == c
  }

  predicate EndsWith(s: string, c: char) {
    s != "" && s[|s| - 1] == c
  }

  predicate HostMatches(pattern: string, host: string) {
    if !StartsWith(pattern, '*') then pattern == host
    else
      var rest := pattern[1..];
      if rest == "" then true
      else if !StartsWith(rest, '.') then false
      else
        var prefix := StripSuffix(host, rest[1..]);
        prefix.Some? && EndsWith(prefix.value, '.')
  }

  datatype Refusal = IsEmpty | LeadingDot | CatchAllInDisguise | LooseWildcard

  function PatternError(pattern: string): Option<Refusal> {
    if pattern == "" || TrimDots(pattern) == "" then Some(IsEmpty)
    else if pattern[0] == '.' && pattern[1..] != "" then Some(LeadingDot)
    else if '*' in pattern && pattern != "*" && NormalizeHost(pattern) == "*" then Some(CatchAllInDisguise)
    else if pattern[0] != '*' then None
    else
      var rest := pattern[1..];
      if rest == "" || (rest[0] == '.' && rest[1..] != "") then None else Some(LooseWildcard)
  }

  predicate HostMatchesAny(patterns: seq<string>, host: string) {
    exists i :: 0 <= i < |patterns| && HostMatches(NormalizePattern(patterns[i]), NormalizeHost(host))
  }

  // ------------------------------------------------------------------ labels

  /** The labels of `c` and then a name with labels `ls`. */
  function Push(c: char, ls: seq<string>): (r: seq<string>)
    requires ls != []
    ensures r != []
  {
    if c == '.' then [""] + ls else [[c] + ls[0]] + ls[1..]
  }

  /** A name as the list of its labels. */
  function Labels(s: string): (ls: seq<string>)
    ensures ls != []
  {
    if s == "" then [""] else Push(s[0], Labels(s[1..]))
  }

  function Join(ls: seq<string>): string
    requires ls != []
  {
    if |ls| == 1 then ls[0] else ls[0] + "." + Join(ls[1..])
  }

  lemma {:induction false} JoinLabels(s: string)
    ensures Join(Labels(s)) == s
  {
    if s != "" {
      JoinLabels(s[1..]);
      var ls := Labels(s[1..]);
      if s[0] == '.' {
        assert Labels(s)[1..] == ls;
        assert "" + "." + s[1..] == s;
      } else {
        assert Labels(s)[1..] == ls[1..];
        assert s == [s[0]] + s[1..];
      }
    }
  }

  lemma {:induction false} JoinAppend(a: seq<string>, b: seq<string>)
    requires a != [] && b != []
    ensures Join(a + b) == Join(a) + "." + Join(b)
  {
    if |a| == 1 {
      assert (a + b)[1..] == b;
    } else {
      JoinAppend(a[1..], b);
      assert (a + b)[1..] == a[1..] + b;
      assert a[0] + "." + (Join(a[1..]) + "." + Join(b)) == (a[0] + "." + Join(a[1..])) + "." + Join(b);
    }
  }

  lemma LabelsCons(c: char, t: string)
    ensures Labels([c] + t) == Push(c, Labels(t))
  {
    assert ([c] + t)[1..] == t;
  }

  lemma PushAppend(c: char, la: seq<string>, lb: seq<string>)
    requires la != []
    ensures Push(c, la + lb) == Push(c, la) + lb
  {
    assert (la + lb)[1..] == la[1..] + lb;
  }

  lemma {:induction false} LabelsAppend(a: string, b: string)
    ensures Labels(a + "." + b) == Labels(a) + Labels(b)
  {
    if a == "" {
      assert a + "." + b == ['.'] + b;
      LabelsCons('.', b);
    } else {
      hide Labels, Push;
      var c, u := a[0], a[1..];
      assert a == [c] + u;
      assert a + "." + b == [c] + (u + "." + b);
      LabelsCons(c, u);
      LabelsCons(c, u + "." + b);
      LabelsAppend(u, b);
      PushAppend(c, Labels(u), Labels(b));
    }
  }

  /** The labels of `host` are those of `suffix` with at least one more in front. */
  predicate StrictlyUnder(host: string, suffix: string) {
    var h, s := Labels(host), Labels(suffix);
    |h| > |s| && h[|h| - |s|..] == s
  }

  lemma UnderMeansDottedSuffix(host: string, suffix: string) returns (a: string)
    requires StrictlyUnder(host, suffix)
    ensures host == a + "." + suffix
  {
    var h, s := Labels(host), Labels(suffix);
    var front := h[..|h| - |s|];
    assert h == front + s;
    JoinLabels(host);
    JoinLabels(suffix);
    JoinAppend(front, s);
    a := Join(front);
  }

  lemma DottedSuffixMeansUnder(a: string, suffix: string)
    ensures StrictlyUnder(a + "." + suffix, suffix)
  {
    LabelsAppend(a, suffix);
    var h, s := Labels(a) + Labels(suffix), Labels(suffix);
    assert h[|h| - |s|..] == s;
  }

  lemma MatchMeansDottedSuffix(suffix: string, host: string) returns (a: string)
    requires HostMatches("*." + suffix, host)
    ensures host == a + "." + suffix
  {
    var pattern := "*." + suffix;
    assert pattern[1..] == "." + suffix && pattern[1..][1..] == suffix;
    var prefix := StripSuffix(host, suffix).value;
    a := prefix[..|prefix| - 1];
    assert prefix == a + ".";
    assert host == prefix + suffix;
  }

  lemma DottedSuffixMatches(a: string, suffix: string)
    ensures HostMatches("*." + suffix, a + "." + suffix)
  {
    var pattern, host := "*." + suffix, a + "." + suffix;
    assert pattern[1..] == "." + suffix && pattern[1..][1..] == suffix;
    assert host[..|host| - |suffix|] == a + ".";
  }

  /** The string rule is the label rule: a wildcard matches exactly the names
      strictly under its suffix, so never the apex and never a name whose
      last letters happen to be the suffix. */
  lemma WildcardMatchesIffUnder(suffix: string, host: string)
    ensures HostMatches("*." + suffix, host) <==> StrictlyUnder(host, suffix)
  {
    hide HostMatches, StrictlyUnder;
    if HostMatches("*." + suffix, host) {
      var a := MatchMeansDottedSuffix(suffix, host);
      DottedSuffixMeansUnder(a, suffix);
    }
    if StrictlyUnder(host, suffix) {
      var a := UnderMeansDottedSuffix(host, suffix);
      DottedSuffixMatches(a, suffix);
    }
  }

  // ----------------------------------------------------------------- folding

  predicate BracketFree(s: string) {
    forall i :: 0 <= i < |s| ==> !IsBracket(s[i])
  }

  lemma {:induction false} TrimDotsIs(s: string)
    ensures TrimDots(s) <= s && !EndsWith(TrimDots(s), '.')
    ensures forall i :: |TrimDots(s)| <= i < |s| ==> s[i] == '.'
  {
    if s != "" && s[|s| - 1] == '.' {
      TrimDotsIs(s[..|s| - 1]);
    }
  }

  lemma {:induction false} TrimBracketsStartIs(s: string) returns (k: nat)
    ensures k <= |s| && TrimBracketsStart(s) == s[k..]
    ensures forall i :: 0 <= i < k ==> IsBracket(s[i])
    ensures s[k..] != "" ==> !IsBracket(s[k])
  {
    if s != "" && IsBracket(s[0]) {
      var j := TrimBracketsStartIs(s[1..]);
      k := j + 1;
      assert s[1..][j..] == s[k..];
      forall i | 0 <= i < k ensures IsBracket(s[i]) {
        assert i > 0 ==> s[i] == s[1..][i - 1];
      }
    } else {
      k := 0;
    }
  }

  lemma {:induction false} TrimBracketsEndIs(s: string)
    ensures TrimBracketsEnd(s) <= s
    ensures TrimBracketsEnd(s) != "" ==> !IsBracket(TrimBracketsEnd(s)[|TrimBracketsEnd(s)| - 1])
    ensures forall i :: |TrimBracketsEnd(s)| <= i < |s| ==> IsBracket(s[i])
  {
    if s != "" && IsBracket(s[|s| - 1]) {
      TrimBracketsEndIs(s[..|s| - 1]);
    }
  }

  lemma LowerKeeps(s: string, i: nat)
    requires i < |s|
    ensures Lower(s)[i] == '.' <==> s[i] == '.'
    ensures Lower(s)[i] == '*' <==> s[i] == '*'
    ensures IsBracket(Lower(s)[i]) <==> IsBracket(s[i])
  {
  }

  lemma LowerTwice(s: string)
    ensures Lower(Lower(s)) == Lower(s)
  {
  }

  /** A name without brackets only loses its dots and its case. */
  lemma FoldBracketFree(host: string)
    requires BracketFree(host)
    ensures NormalizeHost(host) == Lower(TrimDots(host)) && !EndsWith(NormalizeHost(host), '.')
  {
    var t := TrimDots(host);
    TrimDotsIs(host);
    var k := TrimBracketsStartIs(t);
    assert t != "" ==> t[0] == host[0];
    assert t[0..] == t;
    assert TrimBracketsEnd(t) == t by { if t != "" { assert t[|t| - 1] == host[|t| - 1]; } }
    if t != "" {
      LowerKeeps(t, |t| - 1);
    }
  }

  /** No pattern but the catch-all itself folds to the catch-all. */
  lemma OnlyStarFoldsToStar(pattern: string)
    ensures NormalizePattern(pattern) == "*" <==> pattern == "*"
  {
    if pattern == "*" {
      FoldBracketFree("*");
      assert Lower("*") == "*";
    } else if |pattern| == 1 {
      LowerKeeps(pattern, 0);
    }
  }

  lemma {:induction false} TrimDotsAfter(a: string, b: string)
    requires TrimDots(b) != ""
    ensures TrimDots(a + b) == a + TrimDots(b)
  {
    if b[|b| - 1] == '.' {
      assert (a + b)[..|a + b| - 1] == a + b[..|b| - 1];
      TrimDotsAfter(a, b[..|b| - 1]);
    }
  }

  lemma {:induction false} TrimDotsOfDots(a: string, dots: string)
    requires TrimDots(dots) == ""
    ensures TrimDots(a + dots) == TrimDots(a)
  {
    if dots == "" {
      assert a + dots == a;
    } else {
      assert (a + dots)[..|a + dots| - 1] == a + dots[..|dots| - 1];
      TrimDotsOfDots(a, dots[..|dots| - 1]);
    }
  }

  lemma TrimBracketsOf(s: string) returns (k: nat)
    ensures k + |TrimBrackets(s)| <= |s| && TrimBrackets(s) == s[k..k + |TrimBrackets(s)|]
    ensures forall i :: 0 <= i < k ==> IsBracket(s[i])
    ensures forall i :: k + |TrimBrackets(s)| <= i < |s| ==> IsBracket(s[i])
    ensures TrimBrackets(s) != "" ==>
      !IsBracket(TrimBrackets(s)[0]) && !IsBracket(TrimBrackets(s)[|TrimBrackets(s)| - 1])
  {
    k := TrimBracketsStartIs(s);
    var t, r := s[k..], TrimBrackets(s);
    TrimBracketsEndIs(t);
    assert r <= t;
    assert r == t[..|r|] && s[k..k + |r|] == t[..|r|];
    forall i | k + |r| <= i < |s| ensures IsBracket(s[i]) {
      assert s[i] == t[i - k];
    }
    assert r != "" ==> r[0] == t[0];
  }

  /** A pattern that does not start with a bracket or a dot keeps its start. */
  lemma FoldKeepsStart(pattern: string) returns (k: nat)
    requires TrimDots(pattern) != "" && !IsBracket(pattern[0])
    ensures 0 < k <= |pattern| && NormalizeHost(pattern) == Lower(pattern[..k])
    ensures forall i :: k <= i < |pattern| ==> IsBracket(pattern[i]) || pattern[i] == '.'
  {
    var t := TrimDots(pattern);
    TrimDotsIs(pattern);
    assert t == pattern[..|t|];
    var j := TrimBracketsOf(t);
    assert t[0] == pattern[0];
    assert j == 0;
    k := |TrimBrackets(t)|;
    assert TrimBrackets(t) == t[..k] == pattern[..k];
    forall i | k <= i < |pattern| ensures IsBracket(pattern[i]) || pattern[i] == '.' {
      assert i < |t| ==> pattern[i] == t[i];
    }
  }

  lemma AcceptedSuffixIsNotDots(s: string)
    requires PatternError("*." + s).None?
    ensures TrimDots(s) != ""
  {
    var p := "*." + s;
    assert p[0] == '*' && '*' in p && p != "*";
    if TrimDots(s) == "" {
      DotsAfterStar(s);
    }
  }

  /** An accepted wildcard folds to a wildcard. */
  lemma AcceptedWildcardFolds(s: string) returns (suffix: string)
    requires PatternError("*." + s).None?
    ensures NormalizePattern("*." + s) == "*." + suffix
  {
    AcceptedSuffixIsNotDots(s);
    hide PatternError;
    var p := "*." + s;
    TrimDotsAfter("*.", s);
    assert p[0] == '*' && p[1] == '.';
    var t := "*." + TrimDots(s);
    var k := TrimBracketsOf(t);
    var r := TrimBrackets(t);
    assert t[0] == '*' && t[1] == '.';
    assert k == 0 && |r| >= 2 && r == t[..|r|];
    suffix := Lower(r)[2..];
    assert Lower(r) == "*." + suffix;
  }

  /** Without brackets its suffix folds the way a host does. */
  lemma AcceptedBracketFreeWildcardFolds(s: string)
    requires PatternError("*." + s).None? && BracketFree(s)
    ensures NormalizePattern("*." + s) == "*." + NormalizeHost(s)
  {
    AcceptedSuffixIsNotDots(s);
    hide PatternError;
    var p := "*." + s;
    TrimDotsAfter("*.", s);
    FoldBracketFree(s);
    forall i | 0 <= i < |p| ensures !IsBracket(p[i]) {
      assert i >= 2 ==> p[i] == s[i - 2];
    }
    FoldBracketFree(p);
    LowerAfterStar(TrimDots(s));
  }

  lemma LowerAfterStar(s: string)
    ensures Lower("*." + s) == "*." + Lower(s)
  {
  }

  lemma DotsAfterStar(s: string)
    requires TrimDots(s) == ""
    ensures NormalizeHost("*." + s) == "*"
  {
    var dots := "." + s;
    TrimDotsIs(s);
    AllDots(dots);
    assert "*." + s == "*" + dots;
    TrimDotsOfDots("*", dots);
    FoldBracketFree("*");
    assert Lower("*") == "*";
  }

  lemma {:induction false} AllDots(s: string)
    requires forall i :: 0 <= i < |s| ==> s[i] == '.'
    ensures TrimDots(s) == ""
  {
    if s != "" {
      AllDots(s[..|s| - 1]);
    }
  }

  /** An accepted `*.s` matches a host, both without brackets, exactly when the
      folded host's labels strictly extend those of the folded `s`. */
  lemma AcceptedWildcardMatchesIff(s: string, host: string)
    requires PatternError("*." + s).None? && BracketFree(s) && BracketFree(host)
    ensures HostMatchesAny(["*." + s], host)
            <==> StrictlyUnder(Lower(TrimDots(host)), Lower(TrimDots(s)))
  {
    hide HostMatches, StrictlyUnder, NormalizePattern, NormalizeHost, PatternError;
    AcceptedBracketFreeWildcardFolds(s);
    FoldBracketFree(host);
    FoldBracketFree(s);
    WildcardMatchesIffUnder(NormalizeHost(s), NormalizeHost(host));
    assert ["*." + s][0] == "*." + s;
  }

  // ------------------------------------------------------- refused patterns

  /** A folded host that is empty, or has a dot at one of its ends. */
  predicate HasEmptyEnd(folded: string) {
    folded == "" || StartsWith(folded, '.') || EndsWith(folded, '.')
  }

  /** A folded host never starts with a bracket, and folding it again changes
      nothing unless it ends with a dot. */
  lemma FoldedHost(host: string)
    ensures var h := NormalizeHost(host);
      && (h != "" ==> !IsBracket(h[0]))
      && (!EndsWith(h, '.') ==> NormalizeHost(h) == h)
  {
    var t := TrimDots(host);
    var k := TrimBracketsOf(t);
    var r, h := TrimBrackets(t), NormalizeHost(host);
    if h != "" {
      LowerKeeps(r, 0);
      LowerKeeps(r, |r| - 1);
    }
    if !EndsWith(h, '.') {
      assert TrimDots(h) == h;
      assert TrimBrackets(h) == h;
      LowerTwice(r);
    }
  }

  lemma EmptyRefusal(pattern: string, folded: string)
    requires PatternError(pattern) == Some(IsEmpty)
    ensures HostMatches(NormalizePattern(pattern), folded) ==> folded == ""
  {
  }

  lemma LeadingDotRefusal(pattern: string, folded: string)
    requires PatternError(pattern) == Some(LeadingDot)
    ensures HostMatches(NormalizePattern(pattern), folded) ==> StartsWith(folded, '.')
  {
    var k := FoldKeepsStart(pattern);
    LowerKeeps(pattern[..k], 0);
  }

  lemma LooseRefusal(pattern: string, folded: string)
    requires PatternError(pattern) == Some(LooseWildcard)
    ensures !HostMatches(NormalizePattern(pattern), folded)
  {
    var k := FoldKeepsStart(pattern);
    var f := NormalizeHost(pattern);
    LowerKeeps(pattern[..k], 0);
    if k > 1 {
      LowerKeeps(pattern[..k], 1);
      if pattern[1] == '.' {
        assert pattern == "*.";
        DotsAfterStar("");
      }
      assert f[1] != '.';
    }
  }

  /** A disguised catch-all that could be matched as a wildcard is a star and dots. */
  lemma DisguiseIsDots(pattern: string)
    requires NormalizeHost(pattern) == "*" && |pattern| >= 2 && pattern[0] == '*' && pattern[1] == '.'
    ensures forall i :: 1 <= i < |pattern| ==> pattern[i] == '.'
  {
    var t := TrimDots(pattern);
    TrimDotsIs(pattern);
    assert t == pattern[..|t|];
    var k := TrimBracketsOf(t);
    assert |TrimBrackets(t)| == 1;
  }

  lemma CatchAllRefusal(pattern: string, host: string)
    requires PatternError(pattern) == Some(CatchAllInDisguise)
    ensures HostMatches(NormalizePattern(pattern), NormalizeHost(host)) ==> EndsWith(NormalizeHost(host), '.')
  {
    FoldedHost(host);
    var q, h := Lower(pattern), NormalizeHost(host);
    LowerKeeps(pattern, 0);
    if HostMatches(q, h) {
      if pattern[0] == '*' {
        LowerKeeps(pattern, 1);
        DisguiseIsDots(pattern);
        EndsInDots(q, h);
      } else {
        DisguiseStart(pattern);
      }
    }
  }

  /** A disguised catch-all starts with the star or with a bracket. */
  lemma DisguiseStart(pattern: string)
    requires NormalizeHost(pattern) == "*" && pattern != ""
    ensures pattern[0] == '*' || IsBracket(pattern[0])
  {
    if TrimDots(pattern) != "" && !IsBracket(pattern[0]) {
      var k := FoldKeepsStart(pattern);
      LowerKeeps(pattern[..k], 0);
    }
  }

  lemma EndsInDots(q: string, h: string)
    requires |q| >= 2 && q[0] == '*' && HostMatches(q, h)
    requires forall i :: 2 <= i < |q| ==> q[i] == '.'
    ensures EndsWith(h, '.')
  {
    var suffix := q[1..][1..];
    assert suffix == q[2..];
    var prefix := StripSuffix(h, suffix).value;
    assert h == prefix + suffix;
  }

  lemma RefusedMatchHasEmptyEnd(pattern: string, host: string)
    requires PatternError(pattern).Some? && HostMatches(NormalizePattern(pattern), NormalizeHost(host))
    ensures HasEmptyEnd(NormalizeHost(host))
  {
    hide HostMatches, NormalizePattern, NormalizeHost;
    match PatternError(pattern).value
    case IsEmpty => EmptyRefusal(pattern, NormalizeHost(host));
    case LeadingDot => LeadingDotRefusal(pattern, NormalizeHost(host));
    case CatchAllInDisguise => CatchAllRefusal(pattern, host);
    case LooseWildcard => LooseRefusal(pattern, NormalizeHost(host));
  }

  lemma EmptyEndHasRefusedMatch(host: string) returns (pattern: string)
    requires HasEmptyEnd(NormalizeHost(host))
    ensures PatternError(pattern).Some? && HostMatches(NormalizePattern(pattern), NormalizeHost(host))
  {
    var h := NormalizeHost(host);
    if h == "" {
      pattern := "";
    } else if EndsWith(h, '.') {
      pattern := "*.";
      DotsAfterStar("");
      assert "*." + "" == "*.";
      assert Lower("*.") == "*.";
      assert h == h[..|h| - 1] + "." + "";
      DottedSuffixMatches(h[..|h| - 1], "");
    } else {
      pattern := h;
      FoldedHost(host);
      TrimDotsIs(h);
      assert TrimDots(h) == h;
    }
  }

  /** A refused pattern is documented to match nothing. That holds for a host
      exactly when its folded form is not empty and has no dot at either end. */
  lemma RefusedPatternsMatchNothingIff(host: string)
    ensures (forall pattern :: PatternError(pattern).Some? ==>
               !HostMatches(NormalizePattern(pattern), NormalizeHost(host)))
            <==> !HasEmptyEnd(NormalizeHost(host))
  {
    hide HostMatches, NormalizePattern, NormalizeHost, PatternError, HasEmptyEnd;
    if HasEmptyEnd(NormalizeHost(host)) {
      var pattern := EmptyEndHasRefusedMatch(host);
    } else {
      forall pattern | PatternError(pattern).Some?
        ensures !HostMatches(NormalizePattern(pattern), NormalizeHost(host))
      {
        if HostMatches(NormalizePattern(pattern), NormalizeHost(host)) {
          RefusedMatchHasEmptyEnd(pattern, host);
        }
      }
    }
  }

  /** One such host: the empty pattern matches the host of a single dot. */
  lemma EmptyPatternMatchesEmptyHost()
    ensures PatternError("").Some? && HostMatchesAny([""], ".")
  {
    assert TrimDots(".") == TrimDots("");
    assert NormalizeHost(".") == "" && NormalizePattern([""][0]) == "";
  }

  /** Case and trailing dots do not tell hosts apart. */
  lemma FoldIgnoresCaseAndDots(host: string, dots: string)
    requires TrimDots(dots) == ""
    ensures NormalizeHost(host + dots) == NormalizeHost(host)
    ensures NormalizeHost(Lower(host)) == NormalizeHost(host)
  {
    hide Lower, TrimDots, TrimBracketsStart, TrimBracketsEnd;
    TrimDotsOfDots(host, dots);
    TrimDotsLower(host);
    TrimBracketsStartLower(TrimDots(host));
    TrimBracketsEndLower(TrimBracketsStart(TrimDots(host)));
    LowerTwice(TrimBrackets(TrimDots(host)));
  }

  lemma {:induction false} TrimBracketsStartLower(s: string)
    ensures TrimBracketsStart(Lower(s)) == Lower(TrimBracketsStart(s))
  {
    if s != "" {
      LowerKeeps(s, 0);
      if IsBracket(s[0]) {
        assert Lower(s)[1..] == Lower(s[1..]);
        TrimBracketsStartLower(s[1..]);
      }
    }
  }

  lemma {:induction false} TrimBracketsEndLower(s: string)
    ensures TrimBracketsEnd(Lower(s)) == Lower(TrimBracketsEnd(s))
  {
    if s != "" {
      LowerKeeps(s, |s| - 1);
      if IsBracket(s[|s| - 1]) {
        assert Lower(s)[..|s| - 1] == Lower(s[..|s| - 1]);
        TrimBracketsEndLower(s[..|s| - 1]);
      }
    }
  }

  lemma {:induction false} TrimDotsLower(s: string)
    ensures TrimDots(Lower(s)) == Lower(TrimDots(s))
  {
    if s != "" {
      LowerKeeps(s, |s| - 1);
      if s[|s| - 1] == '.' {
        assert Lower(s)[..|s| - 1] == Lower(s[..|s| - 1]);
        TrimDotsLower(s[..|s| - 1]);
      }
    }
  }
}
