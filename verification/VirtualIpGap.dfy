/** What an allocation costs that is interrupted right after it has moved the
    cursor. The address it skipped stays unoccupied while the cursor goes round,
    so the cursor comes back to occupied addresses before the pool is full. */
module VirtualIpGap {
  import opened Finite
  import opened VirtualIpPool
  import opened VirtualIpRuns

  /** The address `j` places ahead of the cursor, going round. */
  function Ahead(p: PoolState, j: nat): int {
    if p.next + j < p.first + p.PoolLen() then p.next + j else p.next + j - p.PoolLen()
  }

  /** The cursor is `j` places short of `v`, which is held on a live answer; what
      lies between is free, and filling it does not fill the pool. */
  ghost predicate Gapped(p: PoolState, v: nat, j: nat, now: nat) {
    && InPool(p, p.next) && |p.ipToDomain| + j < p.PoolLen()
    && v == Ahead(p, j) && v in p.ipToDomain && p.ipToDomain[v].expiresAt > now
    && forall i :: 0 <= i < j ==> Ahead(p, i) !in p.ipToDomain
  }

  lemma InsertSize<T>(m: map<nat, T>, k: nat, x: T)
    requires k !in m
    ensures |m[k := x]| == |m| + 1
  {
    assert m[k := x].Keys == m.Keys + {k};
  }

  /** A new name brings the cursor one place nearer. */
  lemma NewNameCloses(p: PoolState, v: nat, j: nat, key: string, now: nat)
    requires MutualInverse(p) && Gapped(p, v, j, now) && 0 < j && key !in p.domainToIp
    ensures Gapped(Alloc(p, key, now), v, j - 1, now)
  {
    AllocForward(p, key, now);
    assert Alloc(p, key, now).next == NextCursor(p);
    hide Alloc, MutualInverse;
    var q := Alloc(p, key, now);
    assert Ahead(p, 0) == p.next;
    InsertSize(p.ipToDomain, p.next, Address(key, p.clock + 1, now + ADDRESS_TTL));
    forall i | 0 <= i < j - 1 ensures Ahead(q, i) !in q.ipToDomain {
      assert Ahead(q, i) == Ahead(p, i + 1);
    }
  }

  /** A new name takes `v` once the cursor is there. */
  lemma NewNameTakes(p: PoolState, v: nat, key: string, now: nat)
    requires MutualInverse(p) && Gapped(p, v, 0, now) && key !in p.domainToIp
    ensures Breaks(p, Alloc(p, key, now), v, now)
  {
    AllocForward(p, key, now);
  }

  /** Some name is not among finitely many. */
  lemma {:induction false} NewName(names: set<string>) returns (s: string)
    ensures s !in names && forall n :: n in names ==> |n| < |s|
    decreases |names|
  {
    s := "x";
    if names != {} {
      var n :| n in names;
      s := NewName(names - {n});
      if |s| <= |n| {
        s := n + "x";
      }
    }
  }

  predicate AllAsk(ops: seq<Op>, now: nat) {
    forall i :: 0 <= i < |ops| ==> ops[i].Allocate? && ops[i].now == now
  }

  /** The last of `ops` takes `ip` from a name whose answer is live. */
  ghost predicate EndsBreaking(first: nat, last: nat, ops: seq<Op>, ip: nat) {
    && ops != []
    && var p, op := Run(first, last, ops[..|ops| - 1]), ops[|ops| - 1];
       Breaks(p, Step(p, op), ip, op.now)
  }

  lemma RunOne(first: nat, last: nat, ops: seq<Op>, op: Op)
    ensures Run(first, last, ops + [op]) == Step(Run(first, last, ops), op)
  {
    assert (ops + [op])[..|ops|] == ops;
  }

  lemma EndsOne(first: nat, last: nat, ops: seq<Op>, op: Op, ip: nat)
    requires var p := Run(first, last, ops); Breaks(p, Step(p, op), ip, op.now)
    ensures EndsBreaking(first, last, ops + [op], ip)
  {
    hide Run, Step, Breaks;
    assert (ops + [op])[..|ops|] == ops;
  }

  /** As many new names as it takes, asked about at once, take `v` away. */
  lemma {:induction false} NewNamesReach(first: nat, last: nat, ops: seq<Op>, v: nat, j: nat, now: nat)
    returns (more: seq<Op>)
    requires Gapped(Run(first, last, ops), v, j, now)
    ensures |more| == j + 1 && AllAsk(more, now) && EndsBreaking(first, last, ops + more, v)
    decreases j
  {
    hide Run, Gapped, MutualInverse, Bounded, EndsBreaking, Alloc, Breaks;
    var p := Run(first, last, ops);
    RunKeepsInverse(first, last, ops);
    var key := NewName(p.domainToIp.Keys);
    var op := Allocate(key, now);
    if j == 0 {
      NewNameTakes(p, v, key, now);
      EndsOne(first, last, ops, op, v);
      more := [op];
    } else {
      NewNameCloses(p, v, j, key, now);
      RunOne(first, last, ops, op);
      var rest := NewNamesReach(first, last, ops + [op], v, j - 1, now);
      more := [op] + rest;
      assert ops + more == ops + [op] + rest;
    }
  }

  // --------------------------------------------- from the skip to the answer

  /** With the cursor moved alone in a pool neither full nor empty, the oldest
      occupied address is ahead of it, and no more free ones than there are. */
  lemma SkipLeavesGap(p: PoolState, q: PoolState) returns (v: nat, j: nat)
    requires Ring(p) && !Full(p) && p.ipToDomain != map[]
    requires q == p.(next := NextCursor(p), domainToIp := q.domainToIp)
    ensures v in q.ipToDomain && j + |q.ipToDomain| + 1 == q.PoolLen()
    ensures InPool(q, q.next) && v == Ahead(q, j)
    ensures forall i :: 0 <= i < j ==> Ahead(q, i) !in q.ipToDomain
  {
    var n := |p.ipToDomain|;
    assert n > 0;
    j := p.PoolLen() - n - 1;
    v := if p.next >= p.first + n then p.next - n else p.next + p.PoolLen() - n;
    assert Behind(p, v) == n - 1;
    forall i | 0 <= i < j ensures Ahead(q, i) !in q.ipToDomain {
      assert Behind(p, Ahead(q, i)) == p.PoolLen() - 2 - i;
    }
  }

  /** Asking about `v`'s own name again makes its answer live. */
  lemma AskAgain(p: PoolState, v: nat, j: nat, now: nat)
    requires MutualInverse(p) && v in p.ipToDomain && |p.ipToDomain| + j < p.PoolLen()
    requires InPool(p, p.next) && v == Ahead(p, j)
    requires forall i :: 0 <= i < j ==> Ahead(p, i) !in p.ipToDomain
    ensures Gapped(Alloc(p, p.ipToDomain[v].domain, now), v, j, now)
  {
    var key := p.ipToDomain[v].domain;
    AllocForward(p, key, now);
    var q := Alloc(p, key, now);
    assert q.ipToDomain.Keys == p.ipToDomain.Keys;
    assert |q.ipToDomain.Keys| == |p.ipToDomain.Keys|;
    assert q.next == p.next && q.first == p.first && q.last == p.last;
    hide Alloc, MutualInverse;
    assert forall i: nat :: Ahead(q, i) == Ahead(p, i);
  }

  ghost function KeysOf(ops: seq<Op>): set<string> {
    set i | 0 <= i < |ops| && Asks(ops[i]) :: ops[i].key
  }

  lemma {:induction false} KeysSize(ops: seq<Op>)
    ensures |KeysOf(ops)| <= |ops|
  {
    if ops != [] {
      var n := |ops| - 1;
      KeysSize(ops[..n]);
      var more := if Asks(ops[n]) then {ops[n].key} else {};
      forall d | d in KeysOf(ops) ensures d in KeysOf(ops[..n]) + more {
        var i :| 0 <= i < |ops| && Asks(ops[i]) && ops[i].key == d;
        assert i < n ==> ops[..n][i] == ops[i];
      }
      SubsetSize(KeysOf(ops), KeysOf(ops[..n]) + more);
    }
  }

  /** A window after everything in `ops` sees only names of `more`. */
  lemma LateWindow(ops: seq<Op>, more: seq<Op>, lo: int, hi: int)
    requires forall i :: 0 <= i < |ops| ==> ops[i].now <= lo
    ensures |AskedIn(ops + more, lo, hi)| <= |more|
  {
    forall d | d in AskedIn(ops + more, lo, hi) ensures d in KeysOf(more) {
      var i :| 0 <= i < |ops + more| && Asks((ops + more)[i]) && lo < (ops + more)[i].now <= hi
               && (ops + more)[i].key == d;
      assert i >= |ops| && (ops + more)[i] == more[i - |ops|];
    }
    SubsetSize(AskedIn(ops + more, lo, hi), KeysOf(more));
    KeysSize(more);
  }

  /** A window before everything in `more` sees only names of `ops`. */
  lemma EarlyWindow(ops: seq<Op>, more: seq<Op>, lo: int, hi: int)
    requires forall i :: 0 <= i < |more| ==> hi < more[i].now
    ensures |AskedIn(ops + more, lo, hi)| <= |AskedIn(ops, lo, hi)|
  {
    forall d | d in AskedIn(ops + more, lo, hi) ensures d in AskedIn(ops, lo, hi) {
      var i :| 0 <= i < |ops + more| && Asks((ops + more)[i]) && lo < (ops + more)[i].now <= hi
               && (ops + more)[i].key == d;
      assert i < |ops| && (ops + more)[i] == ops[i];
    }
    SubsetSize(AskedIn(ops + more, lo, hi), AskedIn(ops, lo, hi));
  }

  lemma LaterNamesFit(ops: seq<Op>, more: seq<Op>, now: nat, len: nat)
    requires Monotone(ops) && WindowsFit(ops, len) && |more| <= len && AllAsk(more, now + ADDRESS_TTL)
    requires forall i :: 0 <= i < |ops| ==> ops[i].now <= now
    ensures Monotone(ops + more) && WindowsFit(ops + more, len)
  {
    hide AskedIn;
    var all := ops + more;
    forall k | 0 <= k < |all| ensures |AskedIn(all, all[k].now - ADDRESS_TTL, all[k].now)| <= len {
      if k < |ops| {
        EarlyWindow(ops, more, all[k].now - ADDRESS_TTL, all[k].now);
      } else {
        LateWindow(ops, more, all[k].now - ADDRESS_TTL, all[k].now);
      }
    }
  }

  /** After `ops`, operations that nothing interrupts and that no window finds
      too many names in take `ip` from a name whose answer is live. */
  ghost predicate Falsifies(first: nat, last: nat, ops: seq<Op>, more: seq<Op>, ip: nat) {
    && more != [] && Calm(more) && Monotone(ops + more) && WindowsFit(ops + more, Size(first, last))
    && EndsBreaking(first, last, ops + more, ip)
  }

  /** A cursor moved alone in a pool neither full nor empty can cost an answer. */
  lemma SkipCanFalsify(first: nat, last: nat, ops: seq<Op>, key: string, now: nat)
    returns (more: seq<Op>, ip: nat)
    requires Harmless(first, last, ops)
    requires var p := Run(first, last, ops); key !in p.domainToIp && !Full(p) && p.ipToDomain != map[]
    requires var all := ops + [Interrupt(key, now, CursorMoved)];
      Monotone(all) && WindowsFit(all, Size(first, last))
    ensures Falsifies(first, last, ops + [Interrupt(key, now, CursorMoved)], more, ip)
  {
    hide Run, WindowsFit, Gapped, Ring, MutualInverse, Full;
    var all := ops + [Interrupt(key, now, CursorMoved)];
    var p := Run(first, last, ops);
    RunKeepsInv(first, last, ops);
    RunOne(first, last, ops, Interrupt(key, now, CursorMoved));
    var q := Run(first, last, all);
    RunKeepsInverse(first, last, all);
    assert |p.ipToDomain| > 0;
    var v, j := SkipLeavesGap(p, q);
    AskAgain(q, v, j, now + ADDRESS_TTL);
    var again := Allocate(q.ipToDomain[v].domain, now + ADDRESS_TTL);
    RunOne(first, last, all, again);
    var rest := NewNamesReach(first, last, all + [again], v, j, now + ADDRESS_TTL);
    hide Harmless, EndsBreaking;
    more, ip := [again] + rest, v;
    assert all + [again] + rest == all + more;
    forall i | 0 <= i < |all| ensures all[i].now <= now {
      assert all[i].now <= all[|ops|].now;
    }
    LaterNamesFit(all, more, now, Size(first, last));
  }

  /** With nothing else interrupted, a run stays as harmless as it was. */
  lemma CalmStaysHarmless(first: nat, last: nat, ops: seq<Op>, more: seq<Op>)
    requires Harmless(first, last, ops) && Calm(more)
    ensures Harmless(first, last, ops + more)
  {
    var all := ops + more;
    forall i | 0 <= i < |all| && Skips(Run(first, last, all[..i]), all[i])
      ensures Full(Run(first, last, all[..i])) || Run(first, last, all[..i]).ipToDomain == map[]
    {
      assert i < |ops| && all[..i] == ops[..i];
    }
  }

  lemma HarmlessOne(first: nat, last: nat, ops: seq<Op>, op: Op)
    requires Harmless(first, last, ops)
    requires var p := Run(first, last, ops); Skips(p, op) ==> Full(p) || p.ipToDomain == map[]
    ensures Harmless(first, last, ops + [op])
  {
    var all := ops + [op];
    forall i | 0 <= i < |all| && Skips(Run(first, last, all[..i]), all[i])
      ensures Full(Run(first, last, all[..i])) || Run(first, last, all[..i]).ipToDomain == map[]
    {
      assert all[..i] == ops[..i];
      assert i == |ops| ==> all[..i] == ops;
    }
  }

  lemma HarmlessNeverFalsifies(first: nat, last: nat, ops: seq<Op>, more: seq<Op>, ip: nat)
    requires Harmless(first, last, ops)
    ensures !Falsifies(first, last, ops, more, ip)
  {
    hide Harmless, Run, AskedIn;
    if more != [] && Calm(more) && Monotone(ops + more) && EndsBreaking(first, last, ops + more, ip) {
      CalmStaysHarmless(first, last, ops, more);
      EarlyMoveNeedsCrowd(first, last, ops + more, ip);
    }
  }

  /** Exactly which cursors moved alone cost the pool its promise: as long as
      none of them has happened, one more can be followed by operations that
      take an address from a live answer, with no window seeing more names than
      there are addresses and nothing else interrupted, if and only if the name
      is new and the pool is neither full nor empty. */
  lemma SkipCostsAnAnswerIff(first: nat, last: nat, ops: seq<Op>, key: string, now: nat)
    requires Harmless(first, last, ops)
    requires var all := ops + [Interrupt(key, now, CursorMoved)];
      Monotone(all) && WindowsFit(all, Size(first, last))
    ensures (exists more, ip :: Falsifies(first, last, ops + [Interrupt(key, now, CursorMoved)], more, ip))
            <==> var p := Run(first, last, ops);
                 key !in p.domainToIp && !Full(p) && p.ipToDomain != map[]
  {
    hide Harmless, Run, Falsifies, Full, WindowsFit;
    var p := Run(first, last, ops);
    var all := ops + [Interrupt(key, now, CursorMoved)];
    if key !in p.domainToIp && !Full(p) && p.ipToDomain != map[] {
      var more, ip := SkipCanFalsify(first, last, ops, key, now);
    } else {
      HarmlessOne(first, last, ops, Interrupt(key, now, CursorMoved));
      forall more, ip ensures !Falsifies(first, last, all, more, ip) {
        HarmlessNeverFalsifies(first, last, all, more, ip);
      }
    }
  }

  lemma TakesNext(p: PoolState, key: string, now: nat)
    requires MutualInverse(p) && key !in p.domainToIp && !Full(p) && p.next !in p.ipToDomain
    ensures var q := Alloc(p, key, now);
      && q.ipToDomain == p.ipToDomain[p.next := Address(key, p.clock + 1, now + ADDRESS_TTL)]
      && q.domainToIp.Keys == p.domainToIp.Keys + {key}
      && q.next == NextCursor(p) && q.first == p.first && q.last == p.last
  {
    AllocForward(p, key, now);
    AllocReverse(p, key, now);
  }

  /** The smallest such pool, of three addresses: after a, a skip for b, and c,
      the cursor is back at a's address with one address still unoccupied, and b
      takes it. Three names, all at once, and nobody's answer has expired. */
  lemma ThreeNamesThreeAddresses()
    ensures var ops := [Allocate("a", 0), Interrupt("b", 0, CursorMoved), Allocate("c", 0), Allocate("b", 0)];
      && EndsBreaking(0, 2, ops, 0) && !Full(Run(0, 2, ops[..3]))
      && AskedIn(ops, 0 - ADDRESS_TTL, 0) == {"a", "b", "c"} && Size(0, 2) == 3
  {
    hide Alloc, Breaks, MutualInverse, Bounded, EndsBreaking, AskedIn, Full, Run;
    var ops := [Allocate("a", 0), Interrupt("b", 0, CursorMoved), Allocate("c", 0), Allocate("b", 0)];
    var p := SkippedOnce();
    assert ops[..2] == [Allocate("a", 0), Interrupt("b", 0, CursorMoved)];
    RunSnoc(0, 2, ops, 2);
    RunKeepsInverse(0, 2, ops[..2]);
    RunKeepsInverse(0, 2, ops[..3]);
    ThirdTaken(p);
    FirstTaken(Run(0, 2, ops[..3]));
    EndsOne(0, 2, ops[..3], Allocate("b", 0), 0);
    assert ops == ops[..3] + [Allocate("b", 0)];
    AllThreeAsked();
  }

  predicate IsPoolOf3(p: PoolState, next: nat) {
    p.next == next && p.first == 0 && p.last == 2
  }

  lemma ThirdTaken(p: PoolState)
    requires MutualInverse(p) && IsPoolOf3(p, 2)
    requires p.ipToDomain == map[0 := Address("a", 1, ADDRESS_TTL)] && p.domainToIp.Keys == {"a"}
    ensures var q := Alloc(p, "c", 0);
      && IsPoolOf3(q, 0) && q.ipToDomain.Keys == {0, 2} && q.ipToDomain[0] == p.ipToDomain[0]
      && q.domainToIp.Keys == {"a", "c"}
  {
    hide MutualInverse, Alloc;
    assert |p.ipToDomain.Keys| == 1;
    TakesNext(p, "c", 0);
  }

  lemma FirstTaken(p: PoolState)
    requires MutualInverse(p) && IsPoolOf3(p, 0) && p.ipToDomain.Keys == {0, 2}
    requires p.ipToDomain[0] == Address("a", 1, ADDRESS_TTL) && "b" !in p.domainToIp
    ensures !Full(p) && Breaks(p, Alloc(p, "b", 0), 0, 0)
  {
    hide MutualInverse, Alloc;
    assert |p.ipToDomain.Keys| == 2;
    AllocForward(p, "b", 0);
  }

  lemma AllThreeAsked()
    ensures var ops := [Allocate("a", 0), Interrupt("b", 0, CursorMoved), Allocate("c", 0), Allocate("b", 0)];
      AskedIn(ops, 0 - ADDRESS_TTL, 0) == {"a", "b", "c"}
  {
    var ops := [Allocate("a", 0), Interrupt("b", 0, CursorMoved), Allocate("c", 0), Allocate("b", 0)];
    assert ops[0].key == "a" && ops[1].key == "b" && ops[2].key == "c";
  }

  lemma SkippedOnce() returns (p: PoolState)
    ensures p == Run(0, 2, [Allocate("a", 0), Interrupt("b", 0, CursorMoved)])
    ensures p.ipToDomain == map[0 := Address("a", 1, ADDRESS_TTL)] && p.domainToIp.Keys == {"a"}
    ensures IsPoolOf3(p, 2)
  {
    hide Alloc, MutualInverse, Bounded, Run;
    var q := Run(0, 2, [Allocate("a", 0)]);
    RunOne(0, 2, [], Allocate("a", 0));
    assert [] + [Allocate("a", 0)] == [Allocate("a", 0)];
    assert q == Alloc(Empty(0, 2), "a", 0) by { RunNone(); }
    EmptyIsSound(0, 2);
    TakesNext(Empty(0, 2), "a", 0);
    p := Run(0, 2, [Allocate("a", 0), Interrupt("b", 0, CursorMoved)]);
    RunOne(0, 2, [Allocate("a", 0)], Interrupt("b", 0, CursorMoved));
    assert [Allocate("a", 0)] + [Interrupt("b", 0, CursorMoved)] == [Allocate("a", 0), Interrupt("b", 0, CursorMoved)];
    SkipHere(q);
  }

  lemma RunNone()
    ensures Run(0, 2, []) == Empty(0, 2)
  {
  }

  lemma SkipHere(q: PoolState)
    requires IsPoolOf3(q, 1) && q.ipToDomain == map[0 := Address("a", 1, ADDRESS_TTL)] && q.domainToIp.Keys == {"a"}
    ensures var p := Step(q, Interrupt("b", 0, CursorMoved));
      IsPoolOf3(p, 2) && p.ipToDomain == q.ipToDomain && p.domainToIp.Keys == {"a"}
  {
    assert |q.ipToDomain.Keys| == 1;
    assert DomainsOf(q.ipToDomain) == {"a"};
  }
}
