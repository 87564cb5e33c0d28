/** Choosing one of a domain's backends, skipping the ones known to be down
    (crates/nexapipe-client/src/lb.rs). The rotation is sequential and its
    counter does not wrap. */
module Balancer {
  import opened Wrappers
  import opened Finite

  /** The backends that are not known to be down. */
  function Usable(candidates: seq<bool>): set<nat> {
    set i: nat | i < |candidates| && candidates[i]
  }

  /** The backend a counter lands on. */
  function Backend(c: nat, n: nat): (b: nat)
    requires n > 0
    ensures b < n
  {
    c % n
  }

  predicate UsableAt(candidates: seq<bool>, c: nat)
    requires candidates != []
  {
    candidates[Backend(c, |candidates|)]
  }

  /** The walk of one selection: at most `left` steps from counter `c`. */
  function Scan(candidates: seq<bool>, c: nat, left: nat): (Option<nat>, nat)
    requires candidates != []
    decreases left
  {
    if left == 0 then (None, c)
    else if UsableAt(candidates, c) then (Some(Backend(c, |candidates|)), c + 1)
    else Scan(candidates, c + 1, left - 1)
  }

  function Select(candidates: seq<bool>, c: nat): (Option<nat>, nat) {
    if candidates == [] then (None, c) else Scan(candidates, c, |candidates|)
  }

  class RoundRobin {
    var index: nat

    constructor ()
      ensures index == 0
    {
      index := 0;
    }

    method Next(candidates: seq<bool>) returns (r: Option<nat>)
      modifies this
      ensures (r, index) == Select(candidates, old(index))
    {
      var count := |candidates|;
      if count == 0 {
        return None;
      }
      for step := 0 to count
        invariant Scan(candidates, index, count - step) == Select(candidates, old(index))
      {
        var current := index;
        index := index + 1;
        if candidates[current % count] {
          return Some(current % count);
        }
      }
      r := None;
    }
  }

  /** The backends `k` consecutive selections return, starting at counter `c`. */
  function Picks(candidates: seq<bool>, c: nat, k: nat): seq<Option<nat>>
    decreases k
  {
    if k == 0 then []
    else
      var (r, c') := Select(candidates, c);
      [r] + Picks(candidates, c', k - 1)
  }

  /** The counters in `[c, d)` that land on a usable backend. */
  function Landings(candidates: seq<bool>, c: nat, d: nat): seq<nat>
    requires candidates != []
    decreases d - c
  {
    if c >= d then []
    else (if UsableAt(candidates, c) then [c] else []) + Landings(candidates, c + 1, d)
  }

  /** `l` is the ascending list of all usable counters in `[c, d)`. */
  ghost predicate AreLandings(candidates: seq<bool>, l: seq<nat>, c: nat, d: nat)
    requires candidates != []
  {
    && (forall i :: 0 <= i < |l| ==> c <= l[i] < d && UsableAt(candidates, l[i]))
    && (forall i, j :: 0 <= i < j < |l| ==> l[i] < l[j])
    && (forall p: nat :: c <= p < d && UsableAt(candidates, p) ==> p in l)
  }

  lemma {:induction false} LandingsAre(candidates: seq<bool>, c: nat, d: nat)
    requires candidates != []
    ensures AreLandings(candidates, Landings(candidates, c, d), c, d)
    decreases d - c
  {
    hide UsableAt, AreLandings;
    if c >= d {
      NoLandings(candidates, c, d);
    } else {
      LandingsAre(candidates, c + 1, d);
      var rest := Landings(candidates, c + 1, d);
      if UsableAt(candidates, c) {
        LandingsCons(candidates, rest, c, d);
      } else {
        LandingsSkip(candidates, rest, c, d);
        assert [] + rest == rest;
      }
    }
  }

  lemma NoLandings(candidates: seq<bool>, c: nat, d: nat)
    requires candidates != [] && c >= d
    ensures AreLandings(candidates, [], c, d)
  {
  }

  lemma LandingsSkip(candidates: seq<bool>, l: seq<nat>, c: nat, d: nat)
    requires candidates != [] && !UsableAt(candidates, c) && AreLandings(candidates, l, c + 1, d)
    ensures AreLandings(candidates, l, c, d)
  {
    hide UsableAt;
  }

  lemma LandingsCons(candidates: seq<bool>, rest: seq<nat>, c: nat, d: nat)
    requires candidates != [] && c < d && UsableAt(candidates, c)
    requires AreLandings(candidates, rest, c + 1, d)
    ensures AreLandings(candidates, [c] + rest, c, d)
  {
    hide UsableAt;
    var l := [c] + rest;
    forall i | 0 <= i < |l| ensures c <= l[i] < d && UsableAt(candidates, l[i]) {
      assert i > 0 ==> l[i] == rest[i - 1];
    }
    forall i, j | 0 <= i < j < |l| ensures l[i] < l[j] {
      assert l[j] == rest[j - 1];
      assert i > 0 ==> l[i] == rest[i - 1];
    }
    forall p: nat | c <= p < d && UsableAt(candidates, p) ensures p in l {
      assert p == c || p in rest;
    }
  }

  // ------------------------------------------------------------ residues

  lemma NoMultipleBetween(n: nat, k: int)
    ensures !(0 < n * k < n)
  {
    if k >= 1 {
      assert n * k >= n;
    } else {
      assert n * k <= 0;
    }
  }

  lemma ModOf(x: int, n: nat, k: int, j: nat)
    requires j < n && x == n * k + j
    ensures x % n == j
  {
    var q, r := x / n, x % n;
    assert x == n * q + r;
    assert n * (k - q) == r - j;
    assert n * (q - k) == j - r;
    NoMultipleBetween(n, k - q);
    NoMultipleBetween(n, q - k);
  }

  /** Some counter of any window as long as the list lands on any given backend. */
  lemma CounterFor(c: nat, n: nat, j: nat) returns (p: nat)
    requires j < n
    ensures c <= p < c + n && Backend(p, n) == j
  {
    var d := (j - c) % n;
    p := c + d;
    assert j - c == n * ((j - c) / n) + d;
    assert p == n * (-((j - c) / n)) + j;
    ModOf(p, n, -((j - c) / n), j);
  }

  /** Two counters of such a window land on different backends. */
  lemma WindowBackendsDiffer(p: nat, q: nat, n: nat)
    requires p < q < p + n
    ensures Backend(p, n) != Backend(q, n)
  {
    var a, b := p / n, q / n;
    assert p == n * a + p % n && q == n * b + q % n;
    assert q - p == n * (b - a) + (q % n - p % n);
    NoMultipleBetween(n, b - a);
  }

  // ------------------------------------------------------------- fairness

  /** A walk long enough to reach a landing does not depend on its budget. */
  lemma {:induction false} ScanReaches(candidates: seq<bool>, c: nat, left: nat, left': nat, p: nat)
    requires candidates != [] && c <= p < c + left && p < c + left' && UsableAt(candidates, p)
    ensures Scan(candidates, c, left) == Scan(candidates, c, left')
    decreases left
  {
    if !UsableAt(candidates, c) {
      ScanReaches(candidates, c + 1, left - 1, left' - 1, p);
    }
  }

  /** Skipping a backend that is down changes nothing about what comes next. */
  lemma SkipDown(candidates: seq<bool>, c: nat, j: nat)
    requires j in Usable(candidates) && !UsableAt(candidates, c)
    ensures Select(candidates, c) == Select(candidates, c + 1)
  {
    var n := |candidates|;
    var p := CounterFor(c, n, j);
    ScanReaches(candidates, c + 1, n - 1, n, p);
  }

  /** Consecutive selections return the landings in order. */
  lemma {:induction false} PicksAreLandings(candidates: seq<bool>, c: nat, d: nat, j: nat)
    requires j in Usable(candidates)
    ensures var l := Landings(candidates, c, d);
      var picks := Picks(candidates, c, |l|);
      |picks| == |l| && forall i :: 0 <= i < |l| ==> picks[i] == Some(Backend(l[i], |candidates|))
    decreases d - c
  {
    if c < d {
      PicksAreLandings(candidates, c + 1, d, j);
      if !UsableAt(candidates, c) {
        SkipDown(candidates, c, j);
      }
    }
  }

  lemma LandingsCount(candidates: seq<bool>, c: nat)
    requires candidates != []
    ensures |Landings(candidates, c, c + |candidates|)| == |Usable(candidates)|
  {
    hide Backend, Landings;
    var n := |candidates|;
    var l := Landings(candidates, c, c + n);
    LandingsAre(candidates, c, c + n);
    var backends := seq(|l|, i requires 0 <= i < |l| => Backend(l[i], n));
    forall i, k | 0 <= i < k < |l| ensures backends[i] != backends[k] {
      WindowBackendsDiffer(l[i], l[k], n);
    }
    forall j | j in Usable(candidates) ensures j in backends {
      var p := CounterFor(c, n, j);
      assert p in l;
      var i :| 0 <= i < |l| && l[i] == p;
      assert backends[i] == j;
    }
    DistinctSize(backends);
    forall j | j in backends ensures j in Usable(candidates) {
      var i :| 0 <= i < |l| && backends[i] == j;
      assert UsableAt(candidates, l[i]);
    }
    assert Elements(backends) == Usable(candidates);
  }

  /** With `u` usable backends, any `u` consecutive selections, from any
      counter, return each usable backend exactly once. */
  lemma RotationIsFair(candidates: seq<bool>, c: nat)
    ensures var picks := Picks(candidates, c, |Usable(candidates)|);
      && (forall i :: 0 <= i < |picks| ==> picks[i].Some? && picks[i].value in Usable(candidates))
      && (forall i, k :: 0 <= i < k < |picks| ==> picks[i] != picks[k])
      && (forall j :: j in Usable(candidates) ==> Some(j) in picks)
  {
    hide Backend, Landings;
    if j0 :| j0 in Usable(candidates) {
      var n := |candidates|;
      var l := Landings(candidates, c, c + n);
      LandingsAre(candidates, c, c + n);
      LandingsCount(candidates, c);
      PicksAreLandings(candidates, c, c + n, j0);
      hide Picks;
      var picks := Picks(candidates, c, |l|);
      forall i | 0 <= i < |picks| ensures picks[i].Some? && picks[i].value in Usable(candidates) {
        assert UsableAt(candidates, l[i]);
      }
      forall i, k | 0 <= i < k < |picks| ensures picks[i] != picks[k] {
        WindowBackendsDiffer(l[i], l[k], n);
      }
      forall j | j in Usable(candidates) ensures Some(j) in picks {
        var p := CounterFor(c, n, j);
        assert p in l;
        var i :| 0 <= i < |l| && l[i] == p;
        assert picks[i] == Some(j);
      }
    } else {
      assert Usable(candidates) == {};
    }
  }

  /** A selection finds nothing exactly when nothing is usable, and the counter
      still moves on by one step per candidate. */
  lemma {:induction false} ScanNone(candidates: seq<bool>, c: nat, left: nat)
    requires candidates != []
    ensures Scan(candidates, c, left).0.None? <==> forall p :: c <= p < c + left ==> !UsableAt(candidates, p)
    ensures Scan(candidates, c, left).0.None? ==> Scan(candidates, c, left).1 == c + left
    decreases left
  {
    if left > 0 && !UsableAt(candidates, c) {
      ScanNone(candidates, c + 1, left - 1);
    }
  }

  lemma SelectNoneIff(candidates: seq<bool>, c: nat)
    ensures Select(candidates, c).0.None? <==> Usable(candidates) == {}
    ensures Select(candidates, c).0.None? ==> Select(candidates, c).1 == c + |candidates|
  {
    if candidates != [] {
      var n := |candidates|;
      ScanNone(candidates, c, n);
      if j :| j in Usable(candidates) {
        var p := CounterFor(c, n, j);
        assert UsableAt(candidates, p);
      } else {
        forall p: nat | c <= p < c + n ensures !UsableAt(candidates, p) {
          assert Backend(p, n) !in Usable(candidates);
        }
      }
    }
  }

  lemma {:induction false} ScanIsNext(candidates: seq<bool>, c: nat, left: nat)
    requires candidates != []
    ensures var (r, d) := Scan(candidates, c, left);
      r.Some? ==>
        && c < d <= c + left && r.value == (d - 1) % |candidates| && candidates[(d - 1) % |candidates|]
        && forall p: nat :: c <= p < d - 1 ==> !candidates[p % |candidates|]
    decreases left
  {
    if left > 0 && !UsableAt(candidates, c) {
      ScanIsNext(candidates, c + 1, left - 1);
    }
  }

  /** A selection takes the first usable backend the counter comes to, and
      leaves the counter one past it. */
  lemma SelectIsNext(candidates: seq<bool>, c: nat)
    ensures var (r, d) := Select(candidates, c);
      r.Some? ==>
        && candidates != [] && c < d <= c + |candidates|
        && r.value == (d - 1) % |candidates| && candidates[(d - 1) % |candidates|]
        && forall p: nat :: c <= p < d - 1 ==> !candidates[p % |candidates|]
  {
    if candidates != [] {
      ScanIsNext(candidates, c, |candidates|);
    }
  }

  // ---------------------------------------------------------- random pick

  /** The `nth` usable backend at or after `i`. */
  function NthUsable(candidates: seq<bool>, nth: nat, i: nat): Option<nat>
    requires i <= |candidates|
    decreases |candidates| - i
  {
    if i == |candidates| then None
    else if !candidates[i] then NthUsable(candidates, nth, i + 1)
    else if nth == 0 then Some(i)
    else NthUsable(candidates, nth - 1, i + 1)
  }

  /** The backend at or after `i` has this many usable ones before it. */
  function RankFrom(candidates: seq<bool>, i: nat, j: nat): nat
    requires i <= j <= |candidates|
    decreases j - i
  {
    if i == j then 0 else (if candidates[i] then 1 else 0) + RankFrom(candidates, i + 1, j)
  }

  lemma {:induction false} NthUsableHasRank(candidates: seq<bool>, nth: nat, i: nat, j: nat)
    requires i <= j < |candidates|
    ensures NthUsable(candidates, nth, i) == Some(j) <==> candidates[j] && RankFrom(candidates, i, j) == nth
    decreases j - i
  {
    if i == j {
      NthUsableExists(candidates, nth, i + 1);
      if nth > 0 {
        NthUsableExists(candidates, nth - 1, i + 1);
      }
    } else if !candidates[i] {
      NthUsableHasRank(candidates, nth, i + 1, j);
    } else if nth > 0 {
      NthUsableHasRank(candidates, nth - 1, i + 1, j);
    }
  }

  lemma {:induction false} NthUsableExists(candidates: seq<bool>, nth: nat, i: nat)
    requires i <= |candidates|
    ensures NthUsable(candidates, nth, i).Some? <==> nth < RankFrom(candidates, i, |candidates|)
    ensures NthUsable(candidates, nth, i).Some? ==> i <= NthUsable(candidates, nth, i).value < |candidates|
    decreases |candidates| - i
  {
    if i < |candidates| {
      if !candidates[i] {
        NthUsableExists(candidates, nth, i + 1);
      } else if nth > 0 {
        NthUsableExists(candidates, nth - 1, i + 1);
      }
    }
  }

  function UsableFrom(candidates: seq<bool>, i: nat): set<nat> {
    set j | j in Usable(candidates) && i <= j
  }

  lemma {:induction false} RankIsUsableCount(candidates: seq<bool>, i: nat)
    requires i <= |candidates|
    ensures RankFrom(candidates, i, |candidates|) == |UsableFrom(candidates, i)|
    decreases |candidates| - i
  {
    if i < |candidates| {
      RankIsUsableCount(candidates, i + 1);
      var after := UsableFrom(candidates, i + 1);
      assert UsableFrom(candidates, i) == if candidates[i] then after + {i} else after;
    } else {
      assert UsableFrom(candidates, i) == {};
    }
  }

  /** The pick for a rank drawn below the number of usable backends. */
  function RandomSelect(candidates: seq<bool>, nth: nat): Option<nat> {
    NthUsable(candidates, nth, 0)
  }

  /** Ranks below the number of usable backends correspond one to one to the
      usable backends: every rank picks one, and each is picked by one rank. */
  lemma RandomPickIsBijection(candidates: seq<bool>)
    ensures forall nth: nat :: RandomSelect(candidates, nth).Some? <==> nth < |Usable(candidates)|
    ensures forall nth: nat :: nth < |Usable(candidates)| ==>
      RandomSelect(candidates, nth).Some? && RandomSelect(candidates, nth).value in Usable(candidates)
    ensures forall j :: j in Usable(candidates) ==>
      exists nth: nat :: nth < |Usable(candidates)| && RandomSelect(candidates, nth) == Some(j)
    ensures forall a: nat, b: nat :: a < b < |Usable(candidates)| ==>
      RandomSelect(candidates, a) != RandomSelect(candidates, b)
  {
    RankIsUsableCount(candidates, 0);
    assert UsableFrom(candidates, 0) == Usable(candidates);
    forall nth: nat
      ensures RandomSelect(candidates, nth).Some? <==> nth < |Usable(candidates)|
      ensures RandomSelect(candidates, nth).Some? ==> RandomSelect(candidates, nth).value in Usable(candidates)
    {
      NthUsableExists(candidates, nth, 0);
      if RandomSelect(candidates, nth).Some? {
        NthUsableHasRank(candidates, nth, 0, RandomSelect(candidates, nth).value);
      }
    }
    forall j | j in Usable(candidates)
      ensures RandomSelect(candidates, RankFrom(candidates, 0, j)) == Some(j)
    {
      NthUsableHasRank(candidates, RankFrom(candidates, 0, j), 0, j);
    }
    forall a: nat, b: nat | a < b < |Usable(candidates)|
      ensures RandomSelect(candidates, a) != RandomSelect(candidates, b)
    {
      NthUsableHasRank(candidates, a, 0, RandomSelect(candidates, a).value);
      NthUsableHasRank(candidates, b, 0, RandomSelect(candidates, a).value);
    }
  }
}
