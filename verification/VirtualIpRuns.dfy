/** Whole runs of a virtual address pool: allocations, lookups, and allocations
    interrupted half way and recovered from, in any order. */
module VirtualIpRuns {
  import opened Wrappers
  import opened Finite
  import opened VirtualIpPool

  /** One operation and the time it was performed at. A name is its folded key. */
  datatype Op =
    | Allocate(key: string, now: nat)
    | Look(ip: nat, now: nat)
    | Interrupt(key: string, now: nat, point: Point)

  predicate Asks(op: Op) {
    op.Allocate? || op.Interrupt?
  }

  /** The pool an allocation of `key` leaves behind when it stops at `point`. */
  ghost function Torn(p: PoolState, key: string, now: nat, point: Point): PoolState {
    if key in p.domainToIp then Touch(p, p.domainToIp[key]) else AllocUpTo(p, key, now, point)
  }

  ghost function Step(p: PoolState, op: Op): PoolState {
    match op
    case Allocate(key, now) => Alloc(p, key, now)
    case Look(ip, now) => Lookup(p, ip)
    case Interrupt(key, now, point) => Rebuild(Torn(p, key, now, point))
  }

  ghost function Run(first: nat, last: nat, ops: seq<Op>): PoolState {
    if ops == [] then Empty(first, last)
    else Step(Run(first, last, ops[..|ops| - 1]), ops[|ops| - 1])
  }

  lemma RunSnoc(first: nat, last: nat, ops: seq<Op>, k: nat)
    requires k < |ops|
    ensures Run(first, last, ops[..k + 1]) == Step(Run(first, last, ops[..k]), ops[k])
  {
    assert ops[..k + 1][..k] == ops[..k];
  }

  ghost predicate Monotone(ops: seq<Op>) {
    forall i, j :: 0 <= i <= j < |ops| ==> ops[i].now <= ops[j].now
  }

  predicate Calm(ops: seq<Op>) {
    forall i :: 0 <= i < |ops| ==> !ops[i].Interrupt?
  }

  /** Some allocation of a new name stopped right after the cursor had moved. */
  predicate Skips(p: PoolState, op: Op) {
    op.Interrupt? && op.point.CursorMoved? && op.key !in p.domainToIp
  }

  /** Wherever that happened the pool was full or empty. */
  ghost predicate Harmless(first: nat, last: nat, ops: seq<Op>) {
    forall i :: 0 <= i < |ops| && Skips(Run(first, last, ops[..i]), ops[i]) ==>
      Full(Run(first, last, ops[..i])) || Run(first, last, ops[..i]).ipToDomain == map[]
  }

  /** Wherever that happened the pool was full or of one address. */
  ghost predicate Steady(first: nat, last: nat, ops: seq<Op>) {
    forall i :: 0 <= i < |ops| && Skips(Run(first, last, ops[..i]), ops[i]) ==>
      Full(Run(first, last, ops[..i])) || Size(first, last) == 1
  }

  lemma HarmlessPrefix(first: nat, last: nat, ops: seq<Op>, k: nat)
    requires k <= |ops| && Harmless(first, last, ops)
    ensures Harmless(first, last, ops[..k])
  {
    forall i | 0 <= i < k && Skips(Run(first, last, ops[..k][..i]), ops[..k][i])
      ensures Full(Run(first, last, ops[..k][..i])) || Run(first, last, ops[..k][..i]).ipToDomain == map[]
    {
      assert ops[..k][..i] == ops[..i];
    }
  }

  lemma SteadyPrefix(first: nat, last: nat, ops: seq<Op>, k: nat)
    requires k <= |ops| && Steady(first, last, ops)
    ensures Steady(first, last, ops[..k])
  {
    forall i | 0 <= i < k && Skips(Run(first, last, ops[..k][..i]), ops[..k][i])
      ensures Full(Run(first, last, ops[..k][..i])) || Size(first, last) == 1
    {
      assert ops[..k][..i] == ops[..i];
    }
  }

  // ------------------------------------------------------------- invariants

  /** Every address held, and the cursor, are of the pool. */
  predicate Bounded(p: PoolState) {
    InPool(p, p.next) && forall ip :: ip in p.ipToDomain ==> InPool(p, ip)
  }

  lemma StepKeepsInverse(p: PoolState, op: Op)
    requires MutualInverse(p)
    ensures MutualInverse(Step(p, op))
  {
    match op
    case Allocate(key, now) => AllocKeepsInverse(p, key, now);
    case Look(ip, now) => LookupKeepsInv(p, ip);
    case Interrupt(key, now, point) =>
      if key in p.domainToIp {
        TouchKeeps(p, p.domainToIp[key]);
        RebuildInverts(Touch(p, p.domainToIp[key]));
      } else {
        RecoveryRestoresInv(p, key, now, point);
      }
  }

  lemma ChosenIsBounded(p: PoolState, key: string, now: nat)
    requires Bounded(p)
    ensures InPool(p, ChosenIp(p, now)) && Bounded(ForwardInsert(p, key, now))
    ensures Bounded(p.(next := NextCursor(p)))
  {
    hide Victim;
    if Full(p) {
      ChosenIsHeldWhenFull(p, now);
    }
  }

  lemma StepKeepsBounded(p: PoolState, op: Op)
    requires Bounded(p)
    ensures Bounded(Step(p, op)) && Step(p, op).first == p.first && Step(p, op).last == p.last
  {
    hide ChosenIp, NextCursor;
    if Asks(op) {
      ChosenIsBounded(p, op.key, op.now);
    }
  }

  /** In every reachable state, whatever was interrupted and wherever, the two
      maps are exact inverses and hold addresses of the pool only. */
  lemma {:induction false} RunKeepsInverse(first: nat, last: nat, ops: seq<Op>)
    ensures MutualInverse(Run(first, last, ops)) && Bounded(Run(first, last, ops))
    ensures Run(first, last, ops).first == first && Run(first, last, ops).last == last
  {
    hide Step, MutualInverse, Bounded;
    if ops == [] {
      EmptyIsSound(first, last);
    } else {
      RunKeepsInverse(first, last, ops[..|ops| - 1]);
      StepKeepsInverse(Run(first, last, ops[..|ops| - 1]), ops[|ops| - 1]);
      StepKeepsBounded(Run(first, last, ops[..|ops| - 1]), ops[|ops| - 1]);
    }
  }

  lemma EmptyIsSound(first: nat, last: nat)
    ensures var p := Empty(first, last);
      MutualInverse(p) && Bounded(p) && Ring(p) && Tight(p) && StampInv(p)
  {
  }

  lemma StepKeepsRing(p: PoolState, op: Op)
    requires Ring(p)
    ensures Ring(Step(p, op)) <==> (Skips(p, op) ==> Full(p) || p.ipToDomain == map[])
    ensures Tight(p) ==>
      (Ring(Step(p, op)) && Tight(Step(p, op)) <==> (Skips(p, op) ==> Full(p) || p.PoolLen() == 1))
  {
    hide Ring, Tight, Full;
    match op
    case Allocate(key, now) => AllocKeepsCursor(p, key, now);
    case Look(ip, now) => LookupKeepsInv(p, ip);
    case Interrupt(key, now, point) =>
      if key in p.domainToIp {
        TouchKeeps(p, p.domainToIp[key]);
        SameKeysSameRing(Touch(p, p.domainToIp[key]), Rebuild(Touch(p, p.domainToIp[key])));
      } else {
        TornRing(p, key, now, point);
      }
  }

  /** In every state reached with no cursor moved alone, but in a full or an
      empty pool, the occupied addresses are right behind the cursor. */
  lemma {:induction false} RunKeepsInv(first: nat, last: nat, ops: seq<Op>)
    requires Harmless(first, last, ops)
    ensures Inv(Run(first, last, ops))
    ensures Run(first, last, ops).first == first && Run(first, last, ops).last == last
  {
    hide Step, Ring, MutualInverse, Bounded, Tight, Full;
    RunKeepsInverse(first, last, ops);
    if ops == [] {
      EmptyIsSound(first, last);
    } else {
      var n := |ops| - 1;
      HarmlessPrefix(first, last, ops, n);
      RunKeepsInv(first, last, ops[..n]);
      StepKeepsRing(Run(first, last, ops[..n]), ops[n]);
    }
  }

  /** With no cursor moved alone, but in a full pool or one of one address, they
      are the ones from the first address up to the cursor, or all. */
  lemma {:induction false} RunKeepsTight(first: nat, last: nat, ops: seq<Op>)
    requires Steady(first, last, ops)
    ensures Inv(Run(first, last, ops)) && Tight(Run(first, last, ops))
  {
    hide Step, Ring, MutualInverse, Bounded, Tight, Full;
    RunKeepsInverse(first, last, ops);
    if ops == [] {
      EmptyIsSound(first, last);
    } else {
      var n := |ops| - 1;
      SteadyPrefix(first, last, ops, n);
      RunKeepsTight(first, last, ops[..n]);
      RunKeepsInverse(first, last, ops[..n]);
      StepKeepsRing(Run(first, last, ops[..n]), ops[n]);
    }
  }

  /** In every state reached without a recovery the stamps are distinct. */
  lemma {:induction false} CalmRunKeepsStamps(first: nat, last: nat, ops: seq<Op>)
    requires Calm(ops)
    ensures StampInv(Run(first, last, ops))
  {
    if ops != [] {
      var before := Run(first, last, ops[..|ops| - 1]);
      CalmRunKeepsStamps(first, last, ops[..|ops| - 1]);
      RunKeepsInverse(first, last, ops[..|ops| - 1]);
      match ops[|ops| - 1]
      case Allocate(key, now) => AllocKeepsStamps(before, key, now);
      case Look(_, _) =>
    }
  }

  // --------------------------------------------------------- the TTL's hold

  /** Every expiry in the pool is that of an answer given in the run. */
  ghost predicate ExpiryRecorded(ops: seq<Op>, p: PoolState) {
    forall ip :: ip in p.ipToDomain ==> Recorded(ops, p.ipToDomain[ip])
  }

  ghost predicate Recorded(ops: seq<Op>, a: Address) {
    exists i :: 0 <= i < |ops| && Asks(ops[i]) && ops[i].key == a.domain
                && ops[i].now + ADDRESS_TTL == a.expiresAt
  }

  lemma StepAddress(p: PoolState, op: Op, ip: nat)
    requires MutualInverse(p) && ip in Step(p, op).ipToDomain
    ensures var a := Step(p, op).ipToDomain[ip];
      || (ip in p.ipToDomain && a.domain == p.ipToDomain[ip].domain
          && a.expiresAt == p.ipToDomain[ip].expiresAt)
      || (Asks(op) && a.domain == op.key && a.expiresAt == op.now + ADDRESS_TTL)
  {
    hide ChosenIp, NextCursor;
  }

  lemma {:induction false} RunRecordsExpiry(first: nat, last: nat, ops: seq<Op>)
    ensures ExpiryRecorded(ops, Run(first, last, ops))
  {
    hide Step, MutualInverse;
    if ops != [] {
      var prior, op := ops[..|ops| - 1], ops[|ops| - 1];
      RunRecordsExpiry(first, last, prior);
      RunKeepsInverse(first, last, prior);
      var p := Run(first, last, prior);
      forall ip | ip in Step(p, op).ipToDomain
        ensures Recorded(ops, Step(p, op).ipToDomain[ip])
      {
        StepAddress(p, op, ip);
        var a := Step(p, op).ipToDomain[ip];
        if Asks(op) && a.domain == op.key && a.expiresAt == op.now + ADDRESS_TTL {
          assert ops[|ops| - 1] == op;
        } else {
          assert Recorded(prior, p.ipToDomain[ip]);
          var i :| 0 <= i < |prior| && Asks(prior[i]) && prior[i].key == a.domain
                   && prior[i].now + ADDRESS_TTL == a.expiresAt;
          assert ops[i] == prior[i];
        }
      }
    }
  }

  /** The distinct folded names asked about in `(lo, hi]`. */
  ghost function AskedIn(ops: seq<Op>, lo: int, hi: int): set<string> {
    set i | 0 <= i < |ops| && Asks(ops[i]) && lo < ops[i].now <= hi :: ops[i].key
  }

  lemma DomainsSize(m: map<nat, Address>)
    requires DistinctDomains(m)
    ensures |DomainsOf(m)| == |m|
  {
    var names := map ip | ip in m :: m[ip].domain;
    ValuesSize(names);
    forall d | d in DomainsOf(m) ensures d in names.Values {
      var ip :| ip in m && m[ip].domain == d;
      assert names[ip] == d;
    }
    assert names.Values == DomainsOf(m);
    assert names.Keys == m.Keys;
  }

  /** An operation moves an address whose answer is still live only by giving a
      new name the address in a full pool in which no answer has expired. */
  lemma MovedMeansCrowded(p: PoolState, op: Op, ip: nat)
    requires Inv(p) && Breaks(p, Step(p, op), ip, op.now)
    ensures Asks(op) && op.key !in p.domainToIp && Full(p) && AllLive(p, op.now)
  {
    hide Ring;
    MoverAllocates(p, op, ip);
    hide MutualInverse, Step;
    BreakMeansCostly(p, op.key, op.now, ip);
    CostlyMeansCrowded(p, op.key, op.now);
  }

  /** Whatever moves an address whose answer is live does what an allocation would. */
  lemma MoverAllocates(p: PoolState, op: Op, ip: nat)
    requires MutualInverse(p) && Breaks(p, Step(p, op), ip, op.now)
    ensures Asks(op) && op.key !in p.domainToIp && Breaks(p, Alloc(p, op.key, op.now), ip, op.now)
  {
    hide ChosenIp, NextCursor;
    if Asks(op) && op.key in p.domainToIp {
      TouchKeeps(p, p.domainToIp[op.key]);
    }
  }

  lemma HeldNamesWereAsked(ops: seq<Op>, p: PoolState, now: nat)
    requires ExpiryRecorded(ops, p)
    requires forall i :: 0 <= i < |ops| ==> ops[i].now <= now
    requires AllLive(p, now)
    ensures DomainsOf(p.ipToDomain) <= AskedIn(ops, now - ADDRESS_TTL, now)
  {
    forall d | d in DomainsOf(p.ipToDomain)
      ensures d in AskedIn(ops, now - ADDRESS_TTL, now)
    {
      var a :| a in p.ipToDomain && p.ipToDomain[a].domain == d;
      assert Recorded(ops, p.ipToDomain[a]);
    }
  }

  lemma AskedInPrefix(ops: seq<Op>, k: nat, lo: int, hi: int)
    requires k <= |ops|
    ensures AskedIn(ops[..k], lo, hi) <= AskedIn(ops, lo, hi)
  {
    forall d | d in AskedIn(ops[..k], lo, hi)
      ensures d in AskedIn(ops, lo, hi)
    {
      var j :| 0 <= j < k && Asks(ops[..k][j]) && lo < ops[..k][j].now <= hi && ops[..k][j].key == d;
      assert ops[j] == ops[..k][j];
    }
  }

  lemma LastWasAsked(ops: seq<Op>, lo: int)
    requires ops != [] && Asks(ops[|ops| - 1]) && lo < ops[|ops| - 1].now
    ensures ops[|ops| - 1].key in AskedIn(ops, lo, ops[|ops| - 1].now)
  {
  }

  lemma NamesDistinct(p: PoolState)
    requires MutualInverse(p)
    ensures DomainsOf(p.ipToDomain) == p.domainToIp.Keys
    ensures |DomainsOf(p.ipToDomain)| == |p.ipToDomain|
  {
    DomainsSize(p.ipToDomain);
  }

  lemma CrowdSize(ops: seq<Op>, p: PoolState)
    requires ops != [] && Monotone(ops) && Asks(ops[|ops| - 1])
    requires Inv(p) && Full(p) && ExpiryRecorded(ops[..|ops| - 1], p)
    requires ops[|ops| - 1].key !in p.domainToIp
    requires AllLive(p, ops[|ops| - 1].now)
    ensures var now := ops[|ops| - 1].now;
      |AskedIn(ops, now - ADDRESS_TTL, now)| > p.PoolLen()
  {
    hide AskedIn, ExpiryRecorded;
    var n, op := |ops| - 1, ops[|ops| - 1];
    HeldNamesWereAsked(ops[..n], p, op.now);
    AskedInPrefix(ops, n, op.now - ADDRESS_TTL, op.now);
    LastWasAsked(ops, op.now - ADDRESS_TTL);
    NamesDistinct(p);
    SubsetSize(DomainsOf(p.ipToDomain) + {op.key}, AskedIn(ops, op.now - ADDRESS_TTL, op.now));
  }

  /** With no cursor moved alone, but in a full or an empty pool: if the last
      operation of a run moves an address to another domain before
      the answer that named it has expired, then more distinct names than the
      pool has addresses were asked about inside that one TTL window. */
  lemma EarlyMoveNeedsCrowd(first: nat, last: nat, ops: seq<Op>, ip: nat)
    requires ops != [] && Monotone(ops) && Harmless(first, last, ops)
    requires var p, op := Run(first, last, ops[..|ops| - 1]), ops[|ops| - 1];
      Breaks(p, Step(p, op), ip, op.now)
    ensures var now := ops[|ops| - 1].now;
      |AskedIn(ops, now - ADDRESS_TTL, now)| > Size(first, last)
  {
    hide Run, Step, AskedIn, Inv, Harmless, Breaks, ExpiryRecorded, Full, AllLive;
    var prior := ops[..|ops| - 1];
    HarmlessPrefix(first, last, ops, |ops| - 1);
    RunKeepsInv(first, last, prior);
    RunRecordsExpiry(first, last, prior);
    MovedMeansCrowded(Run(first, last, prior), ops[|ops| - 1], ip);
    CrowdSize(ops, Run(first, last, prior));
  }

  /** No TTL window ending at an operation sees more names than there are addresses. */
  ghost predicate WindowsFit(ops: seq<Op>, len: nat) {
    forall k :: 0 <= k < |ops| ==> |AskedIn(ops, ops[k].now - ADDRESS_TTL, ops[k].now)| <= len
  }

  /** No operation takes an address from a live answer. */
  ghost predicate Unbroken(first: nat, last: nat, ops: seq<Op>) {
    forall k, ip :: 0 <= k < |ops| ==>
      !Breaks(Run(first, last, ops[..k]), Step(Run(first, last, ops[..k]), ops[k]), ip, ops[k].now)
  }

  lemma FittingStepKeepsName(first: nat, last: nat, ops: seq<Op>, k: nat, ip: nat)
    requires Harmless(first, last, ops) && Monotone(ops) && WindowsFit(ops, Size(first, last)) && k < |ops|
    ensures var p := Run(first, last, ops[..k]); !Breaks(p, Step(p, ops[k]), ip, ops[k].now)
  {
    hide Run, Step, AskedIn, Breaks;
    var p := Run(first, last, ops[..k]);
    var upTo := ops[..k + 1];
    assert upTo[..k] == ops[..k] && upTo[k] == ops[k];
    assert Monotone(upTo);
    HarmlessPrefix(first, last, ops, k + 1);
    hide Harmless, Monotone;
    if Breaks(p, Step(p, ops[k]), ip, ops[k].now) {
      EarlyMoveNeedsCrowd(first, last, upTo, ip);
      var lo, hi := ops[k].now - ADDRESS_TTL, ops[k].now;
      AskedInPrefix(ops, k + 1, lo, hi);
      SubsetSize(AskedIn(upTo, lo, hi), AskedIn(ops, lo, hi));
      assert false;
    }
  }

  lemma FittingIsUnbroken(first: nat, last: nat, ops: seq<Op>)
    requires Harmless(first, last, ops) && Monotone(ops) && WindowsFit(ops, Size(first, last))
    ensures Unbroken(first, last, ops)
  {
    hide Run, Step, Breaks, Harmless, Monotone, WindowsFit;
    forall k, ip | 0 <= k < |ops|
      ensures !Breaks(Run(first, last, ops[..k]), Step(Run(first, last, ops[..k]), ops[k]), ip, ops[k].now)
    {
      FittingStepKeepsName(first, last, ops, k, ip);
    }
  }

  /** `ip` belongs to `d`, on an answer that holds until `until` at least. */
  predicate Holds(p: PoolState, ip: nat, d: string, until: nat) {
    LookupName(p, ip) == Some(d) && p.ipToDomain[ip].expiresAt >= until
  }

  lemma {:induction false} HoldsUntilExpiry(
    first: nat, last: nat, ops: seq<Op>, i: nat, k: nat, ip: nat, d: string, until: nat)
    requires Monotone(ops) && Unbroken(first, last, ops)
    requires i < k <= |ops| && ops[k - 1].now < until <= ops[i].now + ADDRESS_TTL
    requires Holds(Run(first, last, ops[..i + 1]), ip, d, until)
    ensures Holds(Run(first, last, ops[..k]), ip, d, until)
  {
    hide Run, Step, MutualInverse;
    if k > i + 1 {
      HoldsUntilExpiry(first, last, ops, i, k - 1, ip, d, until);
      var p := Run(first, last, ops[..k - 1]);
      assert !Breaks(p, Step(p, ops[k - 1]), ip, ops[k - 1].now);
      RunKeepsInverse(first, last, ops[..k - 1]);
      StepAddress(p, ops[k - 1], ip);
      RunSnoc(first, last, ops, k - 1);
    }
  }

  /** An address handed out by operation `i` of a run that takes none from a
      live answer still belongs to that name up to the answer's expiry. */
  lemma UnbrokenAnswerHolds(first: nat, last: nat, ops: seq<Op>, i: nat, k: nat)
    requires Monotone(ops) && Unbroken(first, last, ops)
    requires i < k <= |ops| && ops[i].Allocate?
    requires ops[k - 1].now < ops[i].now + ADDRESS_TTL
    ensures var ip := AllocIp(Run(first, last, ops[..i]), ops[i].key, ops[i].now);
      LookupName(Run(first, last, ops[..k]), ip) == Some(ops[i].key)
  {
    hide Run, Unbroken, Monotone, MutualInverse, Bounded, Alloc, AllocIp;
    var p := Run(first, last, ops[..i]);
    var ip := AllocIp(p, ops[i].key, ops[i].now);
    RunKeepsInverse(first, last, ops[..i]);
    AllocHands(p, ops[i].key, ops[i].now);
    RunSnoc(first, last, ops, i);
    HoldsUntilExpiry(first, last, ops, i, k, ip, ops[i].key, ops[i].now + ADDRESS_TTL);
  }

  /** With at most as many names in any TTL window as the pool has addresses,
      no cached answer is ever falsified: an address handed out by operation
      `i` still belongs to that name in every state up to the answer's expiry. */
  lemma NoAnswerFalsified(first: nat, last: nat, ops: seq<Op>, i: nat, k: nat)
    requires Harmless(first, last, ops) && Monotone(ops) && WindowsFit(ops, Size(first, last))
    requires i < k <= |ops| && ops[i].Allocate?
    requires ops[k - 1].now < ops[i].now + ADDRESS_TTL
    ensures var ip := AllocIp(Run(first, last, ops[..i]), ops[i].key, ops[i].now);
      LookupName(Run(first, last, ops[..k]), ip) == Some(ops[i].key)
  {
    hide Run, Unbroken, Harmless, Monotone, WindowsFit;
    FittingIsUnbroken(first, last, ops);
    UnbrokenAnswerHolds(first, last, ops, i, k);
  }

  // ------------------------------------------------- the bound is the exact one

  /** How many of `ops`, from the start, are no later than `now`. */
  function UpTo(ops: seq<Op>, now: nat): (k: nat)
    ensures k <= |ops| && (k > 0 ==> ops[k - 1].now <= now) && (k < |ops| ==> ops[k].now > now)
  {
    if ops == [] || ops[0].now > now then 0 else 1 + UpTo(ops[1..], now)
  }

  /** What was asked about in the last TTL of an unbroken run is still in the pool. */
  lemma AskedIsHeld(first: nat, last: nat, ops: seq<Op>, i: nat, k: nat)
    requires Calm(ops) && Monotone(ops) && Unbroken(first, last, ops)
    requires i < k <= |ops| && Asks(ops[i]) && ops[k - 1].now < ops[i].now + ADDRESS_TTL
    ensures ops[i].key in Run(first, last, ops[..k]).domainToIp
  {
    hide Run, Unbroken, Monotone, Bounded, AllocIp;
    UnbrokenAnswerHolds(first, last, ops, i, k);
    RunKeepsInverse(first, last, ops[..k]);
  }

  lemma UnbrokenWindowFits(first: nat, last: nat, ops: seq<Op>, now: nat)
    requires Calm(ops) && Monotone(ops) && Unbroken(first, last, ops)
    ensures |AskedIn(ops, now - ADDRESS_TTL, now)| <= Size(first, last)
  {
    hide Run, Unbroken, MutualInverse;
    var k := UpTo(ops, now);
    var p := Run(first, last, ops[..k]);
    forall d | d in AskedIn(ops, now - ADDRESS_TTL, now) ensures d in p.domainToIp {
      var i :| 0 <= i < |ops| && Asks(ops[i]) && now - ADDRESS_TTL < ops[i].now <= now && ops[i].key == d;
      assert i < k;
      AskedIsHeld(first, last, ops, i, k);
    }
    RunKeepsInverse(first, last, ops[..k]);
    NamesDistinct(p);
    RangeSize(p.ipToDomain.Keys, first, Size(first, last));
    SubsetSize(AskedIn(ops, now - ADDRESS_TTL, now), p.domainToIp.Keys);
  }

  lemma CalmIsHarmless(first: nat, last: nat, ops: seq<Op>)
    requires Calm(ops)
    ensures Harmless(first, last, ops)
  {
  }

  /** With nothing interrupted the pool keeps every address from changing hands
      under a live answer exactly when no TTL window sees more names than there
      are addresses. */
  lemma UnbrokenIffWindowsFit(first: nat, last: nat, ops: seq<Op>)
    requires Calm(ops) && Monotone(ops)
    ensures Unbroken(first, last, ops) <==> WindowsFit(ops, Size(first, last))
  {
    hide Unbroken, AskedIn, Calm, Monotone, Harmless;
    if Unbroken(first, last, ops) {
      forall k | 0 <= k < |ops|
        ensures |AskedIn(ops, ops[k].now - ADDRESS_TTL, ops[k].now)| <= Size(first, last)
      {
        UnbrokenWindowFits(first, last, ops, ops[k].now);
      }
    }
    if WindowsFit(ops, Size(first, last)) {
      CalmIsHarmless(first, last, ops);
      FittingIsUnbroken(first, last, ops);
    }
  }
}
