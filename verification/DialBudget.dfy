/** One connect budget shared by a backend's addresses
    (crates/nexapipe/src/backend_conn.rs, `connect_addrs_with`, `share_deadline`).

    Times are nanoseconds. Time passes only inside dials, and a dial is cut off
    at its attempt's deadline. */
module DialBudget {
  import opened Wrappers

  /** The smallest share one attempt gets: 250 milliseconds. */
  const MIN_ADDRESS_SHARE: nat := 250_000_000

  const U32_MAX: nat := 0xFFFF_FFFF

  /** The low 32 bits of a count. */
  function AsU32(n: nat): nat {
    n % (U32_MAX + 1)
  }

  function Max(a: nat, b: nat): nat { if a < b then b else a }

  function Min(a: nat, b: nat): nat { if a < b then a else b }

  function EqualShare(budget: nat, n: nat): nat
    requires n > 0
  {
    budget / n
  }

  function ShareDeadline(now: nat, deadline: nat, left: nat): nat {
    var remaining := if now < deadline then deadline - now else 0;
    var share := EqualShare(remaining, Max(left, 1));
    Min(now + Max(share, MIN_ADDRESS_SHARE), deadline)
  }

  /** What a dial does if it is left alone: answers after some time, or never. */
  datatype Dial = Accepts(after: nat) | Refuses(after: nat, why: string) | Never

  datatype Outcome = Connected | Failed(why: string) | TimedOut | NotTried

  datatype Attempt = Attempt(start: nat, limit: nat, end: nat, outcome: Outcome)

  function DialWithin(now: nat, limit: nat, dial: Dial): Attempt {
    match dial
    case Accepts(after) =>
      if now + after <= limit then Attempt(now, limit, now + after, Connected)
      else Attempt(now, limit, limit, TimedOut)
    case Refuses(after, why) =>
      if now + after <= limit then Attempt(now, limit, now + after, Failed(why))
      else Attempt(now, limit, limit, TimedOut)
    case Never => Attempt(now, limit, limit, TimedOut)
  }

  /** What becomes of the addresses, in turn, when `dials` is what they would do. */
  function Run(now: nat, deadline: nat, dials: seq<Dial>): seq<Attempt>
    decreases dials
  {
    if dials == [] then []
    else if now >= deadline then
      [Attempt(now, now, now, NotTried)] + Run(now, deadline, dials[1..])
    else
      var a := DialWithin(now, ShareDeadline(now, deadline, AsU32(|dials|)), dials[0]);
      if a.outcome.Connected? then [a] else [a] + Run(a.end, deadline, dials[1..])
  }

  /** `outcomes` names the first addresses, in order, each with what became of it. */
  predicate Named(outcomes: seq<(string, Outcome)>, addrs: seq<string>, run: seq<Attempt>) {
    && |outcomes| == |run| <= |addrs|
    && forall k :: 0 <= k < |run| ==> outcomes[k] == (addrs[k], run[k].outcome)
  }

  predicate Succeeded(run: seq<Attempt>) {
    run != [] && run[|run| - 1].outcome.Connected?
  }

  function EndOf(start: nat, run: seq<Attempt>): nat {
    if run == [] then start else run[|run| - 1].end
  }

  /** The dial accounts for the attempt: it connected, or was refused, exactly if
      the answer came by the limit, and timed out exactly if none did. */
  predicate Explains(dial: Dial, a: Attempt) {
    match dial
    case Accepts(after) =>
      if a.start + after <= a.limit then a.outcome == Connected && a.end == a.start + after
      else a.outcome == TimedOut && a.end == a.limit
    case Refuses(after, why) =>
      if a.start + after <= a.limit then a.outcome == Failed(why) && a.end == a.start + after
      else a.outcome == TimedOut && a.end == a.limit
    case Never => a.outcome == TimedOut && a.end == a.limit
  }

  predicate AttemptOk(now: nat, deadline: nat, dials: seq<Dial>, run: seq<Attempt>, k: nat)
    requires k < |run| <= |dials|
  {
    && run[k].start == (if k == 0 then now else run[k - 1].end)
    && if run[k].start >= deadline then run[k].outcome == NotTried && run[k].end == run[k].start
       else Explains(dials[k], run[k])
  }

  /** The dials account for the run: one attempt after the other, each from
      where the last ended, none past the deadline, and none after a connection. */
  ghost predicate Explained(now: nat, deadline: nat, dials: seq<Dial>, run: seq<Attempt>) {
    && |run| <= |dials|
    && (forall k :: 0 <= k < |run| ==> AttemptOk(now, deadline, dials, run, k))
    && (forall k :: 0 <= k < |run| - 1 ==> run[k].outcome != Connected)
    && (|run| < |dials| ==> run != [] && run[|run| - 1].outcome == Connected)
  }

  /** Address `k` was reached before the deadline, and accepted within its share. */
  predicate AcceptedAt(deadline: nat, dials: seq<Dial>, run: seq<Attempt>, k: nat) {
    && k < |run| && k < |dials| && run[k].start < deadline
    && dials[k].Accepts? && run[k].start + dials[k].after <= run[k].limit
  }

  lemma AttemptExplained(now: nat, limit: nat, dial: Dial)
    ensures var a := DialWithin(now, limit, dial);
      a.start == now && a.limit == limit && Explains(dial, a)
  {
  }

  /** The first attempt, as far as the dials account for it. */
  predicate FirstExplained(now: nat, deadline: nat, dial: Dial, a: Attempt) {
    && a.start == now
    && if now >= deadline then a.outcome == NotTried && a.end == now else Explains(dial, a)
  }

  lemma ExplainedCons(now: nat, deadline: nat, dials: seq<Dial>, a: Attempt, tail: seq<Attempt>)
    requires dials != [] && FirstExplained(now, deadline, dials[0], a) && a.outcome != Connected
    requires Explained(a.end, deadline, dials[1..], tail)
    ensures Explained(now, deadline, dials, [a] + tail)
  {
    hide Explains;
    var run := [a] + tail;
    forall k | 0 <= k < |run| ensures AttemptOk(now, deadline, dials, run, k) {
      assert k > 0 ==> AttemptOk(a.end, deadline, dials[1..], tail, k - 1);
    }
    forall k | 0 <= k < |run| - 1 ensures run[k].outcome != Connected {
      assert k > 0 ==> run[k] == tail[k - 1];
    }
  }

  lemma ExplainedOne(now: nat, deadline: nat, dials: seq<Dial>, a: Attempt)
    requires dials != [] && FirstExplained(now, deadline, dials[0], a) && a.outcome == Connected
    ensures Explained(now, deadline, dials, [a])
  {
  }

  lemma {:induction false} RunIsExplained(now: nat, deadline: nat, dials: seq<Dial>)
    ensures Explained(now, deadline, dials, Run(now, deadline, dials))
    decreases dials
  {
    hide ShareDeadline, AsU32, DialWithin, Explains;
    if dials == [] {
      assert Explained(now, deadline, dials, []);
    } else if now >= deadline {
      hide Explained;
      RunIsExplained(now, deadline, dials[1..]);
      ExplainedCons(now, deadline, dials, Attempt(now, now, now, NotTried), Run(now, deadline, dials[1..]));
    } else {
      hide Explained;
      var limit := ShareDeadline(now, deadline, AsU32(|dials|));
      var a := DialWithin(now, limit, dials[0]);
      AttemptExplained(now, limit, dials[0]);
      if a.outcome.Connected? {
        ExplainedOne(now, deadline, dials, a);
      } else {
        RunIsExplained(a.end, deadline, dials[1..]);
        ExplainedCons(now, deadline, dials, a, Run(a.end, deadline, dials[1..]));
      }
    }
  }

  /** A run connects exactly if some address accepts within its share, and that
      is then the one it ends with. */
  lemma ConnectsIff(now: nat, deadline: nat, dials: seq<Dial>, run: seq<Attempt>)
    requires Explained(now, deadline, dials, run)
    ensures Succeeded(run) <==> exists k: nat :: AcceptedAt(deadline, dials, run, k)
    ensures forall k: nat :: AcceptedAt(deadline, dials, run, k) ==> k == |run| - 1
  {
    forall k: nat | k < |run|
      ensures AcceptedAt(deadline, dials, run, k) <==> run[k].outcome == Connected
    {
      assert AttemptOk(now, deadline, dials, run, k);
    }
  }

  /** Connects to the first address that accepts within its share; or names every
      address once, in order, with what became of it. */
  method ConnectAddrs(addrs: seq<string>, dials: seq<Dial>, start: nat, deadline: nat)
    returns (r: Result<string, seq<(string, Outcome)>>, finish: nat)
    requires |addrs| == |dials|
    ensures var run := Run(start, deadline, dials);
      && Explained(start, deadline, dials, run) && finish == EndOf(start, run)
      && (r.Ok? <==> exists k: nat :: AcceptedAt(deadline, dials, run, k))
      && (forall k: nat :: AcceptedAt(deadline, dials, run, k) ==> r == Ok(addrs[k]))
      && (r.Err? ==> |r.error| == |addrs| && Named(r.error, addrs, run))
  {
    hide Run, Explained, AcceptedAt;
    RunIsExplained(start, deadline, dials);
    ConnectsIff(start, deadline, dials, Run(start, deadline, dials));
    r, finish := TryInTurn(addrs, dials, start, deadline);
  }

  /** The loop over the addresses. */
  method TryInTurn(addrs: seq<string>, dials: seq<Dial>, start: nat, deadline: nat)
    returns (r: Result<string, seq<(string, Outcome)>>, finish: nat)
    requires |addrs| == |dials|
    ensures var run := Run(start, deadline, dials);
      && (r.Ok? <==> Succeeded(run))
      && (r.Ok? ==> |run| <= |addrs| && r.value == addrs[|run| - 1])
      && (r.Err? ==> |r.error| == |addrs| && Named(r.error, addrs, run))
      && finish == EndOf(start, run)
  {
    hide ShareDeadline, DialWithin, AsU32, Run;
    EmptyRun(start, deadline);
    var outcomes: seq<(string, Outcome)> := [];
    finish := start;
    ghost var done: seq<Attempt> := [];
    assert dials[0..] == dials;
    for index := 0 to |addrs|
      invariant |done| == index && Named(outcomes, addrs, done) && !Succeeded(done)
      invariant Run(start, deadline, dials) == done + Run(finish, deadline, dials[index..])
      invariant finish == EndOf(start, done)
    {
      if finish >= deadline {
        var named := NameRest(addrs, outcomes);
        NamedToTheEnd(addrs, outcomes, named, done, finish, deadline, dials[index..]);
        return Err(named), finish;
      }
      RunStep(finish, deadline, dials, index);
      var a := DialWithin(finish, ShareDeadline(finish, deadline, AsU32(|addrs| - index)), dials[index]);
      Associates(done, a, Run(a.end, deadline, dials[index + 1..]));
      finish := a.end;
      done := done + [a];
      if a.outcome.Connected? {
        return Ok(addrs[index]), finish;
      }
      outcomes := outcomes + [(addrs[index], a.outcome)];
    }
    EmptyRun(finish, deadline);
    assert dials[|addrs|..] == [] && done + [] == done;
    r := Err(outcomes);
  }

  lemma Associates(done: seq<Attempt>, a: Attempt, rest: seq<Attempt>)
    ensures done + ([a] + rest) == (done + [a]) + rest
  {
  }

  lemma EmptyRun(now: nat, deadline: nat)
    ensures Run(now, deadline, []) == []
  {
  }

  /** Naming the rest as not tried names what the run says of them. */
  lemma NamedToTheEnd(addrs: seq<string>, outcomes: seq<(string, Outcome)>, named: seq<(string, Outcome)>,
                      done: seq<Attempt>, now: nat, deadline: nat, left: seq<Dial>)
    requires now >= deadline && |done| + |left| == |addrs| && Named(outcomes, addrs, done)
    requires |named| == |addrs| && named[..|outcomes|] == outcomes
    requires forall k :: |outcomes| <= k < |addrs| ==> named[k] == (addrs[k], NotTried)
    requires !Succeeded(done)
    ensures var run := done + Run(now, deadline, left);
      Named(named, addrs, run) && !Succeeded(run) && (now == EndOf(now, done) ==> now == EndOf(now, run))
  {
    NotTriedRun(now, deadline, left);
    hide Run;
    var run := done + Run(now, deadline, left);
    forall k | 0 <= k < |run| ensures named[k] == (addrs[k], run[k].outcome) {
      assert k < |done| ==> named[k] == named[..|outcomes|][k];
    }
  }

  method NameRest(addrs: seq<string>, outcomes: seq<(string, Outcome)>)
    returns (r: seq<(string, Outcome)>)
    requires |outcomes| <= |addrs|
    ensures |r| == |addrs| && r[..|outcomes|] == outcomes
    ensures forall k :: |outcomes| <= k < |addrs| ==> r[k] == (addrs[k], NotTried)
  {
    r := outcomes;
    for k := |outcomes| to |addrs|
      invariant |r| == k && r[..|outcomes|] == outcomes
      invariant forall j :: |outcomes| <= j < k ==> r[j] == (addrs[j], NotTried)
    {
      r := r + [(addrs[k], NotTried)];
    }
  }

  lemma RunStep(now: nat, deadline: nat, dials: seq<Dial>, i: nat)
    requires i < |dials| && now < deadline
    ensures var a := DialWithin(now, ShareDeadline(now, deadline, AsU32(|dials| - i)), dials[i]);
      Run(now, deadline, dials[i..]) ==
        if a.outcome.Connected? then [a] else [a] + Run(a.end, deadline, dials[i + 1..])
  {
    assert dials[i..][1..] == dials[i + 1..];
  }

  /** With a count that fits in 32 bits, the first share is a share of what is left. */
  lemma FirstAttempt(now: nat, deadline: nat, dials: seq<Dial>)
    requires 1 <= |dials| <= U32_MAX && now < deadline
    ensures var a := DialWithin(now, ShareDeadline(now, deadline, |dials|), dials[0]);
      Run(now, deadline, dials) ==
        if a.outcome.Connected? then [a] else [a] + Run(a.end, deadline, dials[1..])
  {
  }

  /** Past the deadline nothing is dialled and every address is named. */
  lemma {:induction false} NotTriedRun(now: nat, deadline: nat, dials: seq<Dial>)
    requires now >= deadline
    ensures |Run(now, deadline, dials)| == |dials|
    ensures forall k :: 0 <= k < |dials| ==> Run(now, deadline, dials)[k] == Attempt(now, now, now, NotTried)
    decreases dials
  {
    if dials != [] {
      NotTriedRun(now, deadline, dials[1..]);
    }
  }

  /** Whatever the dials do, no attempt outlasts the deadline. */
  lemma {:induction false} EndsByDeadline(now: nat, deadline: nat, dials: seq<Dial>)
    requires now <= deadline
    ensures forall k :: 0 <= k < |Run(now, deadline, dials)| ==>
      var a := Run(now, deadline, dials)[k];
      now <= a.start <= a.end <= deadline && a.limit <= deadline
    decreases dials
  {
    if dials != [] {
      if now >= deadline {
        EndsByDeadline(now, deadline, dials[1..]);
      } else {
        var a := DialWithin(now, ShareDeadline(now, deadline, AsU32(|dials|)), dials[0]);
        if !a.outcome.Connected? {
          EndsByDeadline(a.end, deadline, dials[1..]);
        }
      }
    }
  }

  lemma CancelMul(a: int, b: int, m: nat)
    requires m > 0 && a * m < b * m
    ensures a < b
  {
    assert (b - a) * m > 0;
  }

  lemma MulMonotone(a: int, b: int, m: nat)
    requires a <= b
    ensures a * m <= b * m
  {
    assert (b - a) * m >= 0;
  }

  lemma DivAtLeast(x: nat, m: nat, q: nat)
    requires m > 0 && x >= q * m
    ensures x / m >= q
  {
    var d := x / m;
    assert x == d * m + x % m;
    assert (d + 1) * m == d * m + m;
    CancelMul(q, d + 1, m);
  }

  /** An equal share leaves at least as much for every address behind it. */
  lemma ShareLeavesEnough(remaining: nat, n: nat, spent: nat)
    requires n >= 2 && spent <= remaining / n
    ensures remaining - spent >= (remaining / n) * (n - 1)
    ensures (remaining - spent) / (n - 1) >= remaining / n
  {
    var q := remaining / n;
    assert remaining == q * n + remaining % n;
    assert q * n == q * (n - 1) + q;
    DivAtLeast(remaining - spent, n - 1, q);
  }

  function Share(a: Attempt): int {
    a.limit - a.start
  }

  /** Shares along a run: none below `q`, and none below the one before it. */
  predicate Growing(run: seq<Attempt>, q: nat) {
    && (forall k :: 0 <= k < |run| ==> !run[k].outcome.NotTried? && Share(run[k]) >= q)
    && (forall k :: 0 < k < |run| ==> Share(run[k - 1]) <= Share(run[k]))
  }

  lemma EmptyGrows(q: nat)
    ensures Growing([], q)
  {
  }

  lemma GrowingCons(a: Attempt, tail: seq<Attempt>, q: nat, q': nat)
    requires !a.outcome.NotTried? && Share(a) == q <= q' && Growing(tail, q')
    ensures Growing([a] + tail, q)
  {
    var run := [a] + tail;
    forall k | 0 < k < |run| ensures Share(run[k - 1]) <= Share(run[k]) {
      assert run[k] == tail[k - 1];
      assert k > 1 ==> run[k - 1] == tail[k - 2];
    }
  }

  lemma {:induction false} SharesGrow(now: nat, deadline: nat, dials: seq<Dial>)
    requires dials != [] && |dials| <= U32_MAX && now + |dials| * MIN_ADDRESS_SHARE <= deadline
    ensures Growing(Run(now, deadline, dials), EqualShare(deadline - now, |dials|))
    decreases dials
  {
    hide ShareDeadline, EqualShare, Run, DialWithin, Growing, AsU32;
    var n := |dials|;
    var q := EqualShare(deadline - now, n);
    FairFirstShare(now, deadline, n);
    FirstAttempt(now, deadline, dials);
    AttemptBounds(now, now + q, dials[0]);
    var a := DialWithin(now, now + q, dials[0]);
    if a.outcome.Connected? || n == 1 {
      EmptyRun(a.end, deadline);
      EmptyGrows(q);
      GrowingCons(a, [], q, q);
      assert [a] + [] == [a];
      assert n == 1 ==> dials[1..] == [];
    } else {
      NextBudget(now, deadline, n, a.end);
      SharesGrow(a.end, deadline, dials[1..]);
      GrowingCons(a, Run(a.end, deadline, dials[1..]), q, EqualShare(deadline - a.end, n - 1));
    }
  }

  /** With a budget of at least the floor for every address, shares never
      shrink along the run, so every address reached is dialled with at least
      an equal share of the whole budget, whatever the earlier dials did. */
  lemma SharesNeverShrink(now: nat, deadline: nat, dials: seq<Dial>)
    requires dials != [] && |dials| <= U32_MAX && now + |dials| * MIN_ADDRESS_SHARE <= deadline
    ensures Growing(Run(now, deadline, dials), (deadline - now) / |dials|)
  {
    SharesGrow(now, deadline, dials);
    hide Growing, Run;
  }

  lemma GrowingAt(run: seq<Attempt>, q: nat)
    requires Growing(run, q)
    ensures forall k :: 0 <= k < |run| ==> !run[k].outcome.NotTried? && Share(run[k]) >= q
  {
  }

  /** So an address that would accept within an equal share of the whole budget
      is enough for the connect to succeed. */
  lemma FairShareConnects(now: nat, deadline: nat, dials: seq<Dial>, k: nat)
    requires k < |dials| <= U32_MAX && now + |dials| * MIN_ADDRESS_SHARE <= deadline
    requires dials[k].Accepts? && dials[k].after <= (deadline - now) / |dials|
    ensures Succeeded(Run(now, deadline, dials))
  {
    hide Run, Explained, Growing;
    SharesNeverShrink(now, deadline, dials);
    RunIsExplained(now, deadline, dials);
    GenerousRunConnects(now, deadline, dials, Run(now, deadline, dials), (deadline - now) / |dials|, k);
  }

  lemma GenerousRunConnects(now: nat, deadline: nat, dials: seq<Dial>, run: seq<Attempt>, q: nat, k: nat)
    requires Explained(now, deadline, dials, run) && Growing(run, q)
    requires k < |dials| && dials[k].Accepts? && dials[k].after <= q
    ensures Succeeded(run)
  {
    if |run| == |dials| {
      GrowingAt(run, q);
      hide Growing;
      assert Share(run[k]) >= q && AttemptOk(now, deadline, dials, run, k);
      assert AcceptedAt(deadline, dials, run, k);
      ConnectsIff(now, deadline, dials, run);
    }
  }

  lemma FairFirstShare(now: nat, deadline: nat, n: nat)
    requires n >= 1 && now + n * MIN_ADDRESS_SHARE <= deadline
    ensures EqualShare(deadline - now, n) >= MIN_ADDRESS_SHARE
    ensures ShareDeadline(now, deadline, n) == now + EqualShare(deadline - now, n)
    ensures now < deadline
  {
    DivAtLeast(deadline - now, n, MIN_ADDRESS_SHARE);
    assert (deadline - now) / n <= deadline - now;
  }

  lemma AttemptBounds(now: nat, limit: nat, dial: Dial)
    requires now <= limit
    ensures var a := DialWithin(now, limit, dial);
      a.start == now && a.limit == limit && now <= a.end <= limit && !a.outcome.NotTried?
  {
  }

  lemma NextBudget(now: nat, deadline: nat, n: nat, end: nat)
    requires n >= 2 && now + n * MIN_ADDRESS_SHARE <= deadline
    requires now <= end <= now + EqualShare(deadline - now, n)
    ensures end + (n - 1) * MIN_ADDRESS_SHARE <= deadline
    ensures EqualShare(deadline - end, n - 1) >= EqualShare(deadline - now, n)
  {
    var q := (deadline - now) / n;
    DivAtLeast(deadline - now, n, MIN_ADDRESS_SHARE);
    ShareLeavesEnough(deadline - now, n, end - now);
    MulMonotone(MIN_ADDRESS_SHARE, q, n - 1);
  }

  predicate AllTried(run: seq<Attempt>) {
    forall k :: 0 <= k < |run| ==> !run[k].outcome.NotTried?
  }

  /** One attempt, from a budget over the floor for all addresses but one. */
  lemma LeanBudget(now: nat, deadline: nat, n: nat)
    requires n >= 2 && now + (n - 1) * MIN_ADDRESS_SHARE < deadline
    ensures ShareDeadline(now, deadline, n) + (n - 2) * MIN_ADDRESS_SHARE < deadline
  {
    var remaining := deadline - now;
    var q := remaining / n;
    if q >= MIN_ADDRESS_SHARE {
      ShareLeavesEnough(remaining, n, q);
      MulMonotone(MIN_ADDRESS_SHARE, q, n - 1);
    }
  }

  /** More than the floor for every address but the last is enough for every
      address to be dialled, whatever the dials do. */
  lemma {:induction false} EnoughForAll(now: nat, deadline: nat, dials: seq<Dial>)
    requires dials != [] && |dials| <= U32_MAX && now + (|dials| - 1) * MIN_ADDRESS_SHARE < deadline
    ensures AllTried(Run(now, deadline, dials))
    decreases dials
  {
    var n := |dials|;
    var limit := ShareDeadline(now, deadline, n);
    var a := DialWithin(now, limit, dials[0]);
    FirstAttempt(now, deadline, dials);
    hide Run;
    if n == 1 {
      EmptyRun(a.end, deadline);
    } else if !a.outcome.Connected? {
      LeanBudget(now, deadline, n);
      ShareIsAhead(now, deadline, n);
      hide ShareDeadline;
      EnoughForAll(a.end, deadline, dials[1..]);
    }
  }

  lemma ShareIsAhead(now: nat, deadline: nat, n: nat)
    requires now < deadline
    ensures now < ShareDeadline(now, deadline, n) <= deadline
  {
  }

  lemma DivBelow(x: nat, m: nat, q: nat)
    requires m > 0 && x < q * m
    ensures x / m < q
  {
    assert x == x / m * m + x % m;
    CancelMul(x / m, q, m);
  }

  function Blackholes(n: nat): (dials: seq<Dial>)
    ensures |dials| == n
  {
    seq(n, _ => Never)
  }

  /** And less is not: with every address a black hole, the last is never dialled. */
  lemma {:induction false} BlackholesStrandTheLast(now: nat, deadline: nat, n: nat)
    requires 1 <= n <= U32_MAX && deadline <= now + (n - 1) * MIN_ADDRESS_SHARE
    ensures |Run(now, deadline, Blackholes(n))| == n
    ensures Run(now, deadline, Blackholes(n))[n - 1].outcome.NotTried?
    decreases n
  {
    var dials := Blackholes(n);
    if now >= deadline {
      NotTriedRun(now, deadline, dials);
    } else {
      var remaining := deadline - now;
      FirstAttempt(now, deadline, dials);
      hide Run;
      DivBelow(remaining, n, MIN_ADDRESS_SHARE);
      var limit := ShareDeadline(now, deadline, n);
      assert dials[1..] == Blackholes(n - 1);
      assert deadline <= limit + (n - 2) * MIN_ADDRESS_SHARE;
      BlackholesStrandTheLast(limit, deadline, n - 1);
    }
  }

  /** Nor is any budget enough once the count of addresses no longer fits in 32
      bits: cut down to them it says at some point that one address is left. */
  lemma {:induction false} TooManyStrandTheLast(now: nat, deadline: nat, n: nat)
    requires n > U32_MAX
    ensures |Run(now, deadline, Blackholes(n))| == n
    ensures Run(now, deadline, Blackholes(n))[n - 1].outcome.NotTried?
    decreases n
  {
    var dials := Blackholes(n);
    if now >= deadline {
      NotTriedRun(now, deadline, dials);
    } else {
      var limit := ShareDeadline(now, deadline, AsU32(n));
      assert dials[1..] == Blackholes(n - 1);
      if AsU32(n) <= 1 {
        assert (deadline - now) / 1 == deadline - now;
        assert limit == deadline;
        NotTriedRun(limit, deadline, Blackholes(n - 1));
      } else {
        hide ShareDeadline;
        TooManyStrandTheLast(limit, deadline, n - 1);
      }
    }
  }

  /** So every address is sure to be dialled exactly when the budget exceeds
      the floor times all addresses but one, and their count fits in 32 bits. */
  lemma AllSureToBeTriedIff(now: nat, deadline: nat, n: nat)
    requires n >= 1
    ensures (forall dials: seq<Dial> :: |dials| == n ==> AllTried(Run(now, deadline, dials)))
            <==> n <= U32_MAX && now + (n - 1) * MIN_ADDRESS_SHARE < deadline
  {
    hide Run;
    if n <= U32_MAX && now + (n - 1) * MIN_ADDRESS_SHARE < deadline {
      forall dials: seq<Dial> | |dials| == n ensures AllTried(Run(now, deadline, dials)) {
        EnoughForAll(now, deadline, dials);
      }
    } else {
      if n > U32_MAX {
        TooManyStrandTheLast(now, deadline, n);
      } else {
        BlackholesStrandTheLast(now, deadline, n);
      }
      assert !AllTried(Run(now, deadline, Blackholes(n)));
    }
  }
}
