/** The pool as a plain list, least recently used first. The list has no clock,
    no cursor and no reverse map; the pool is proved to compute what it says. */
module VirtualIpRecency {
  import opened Wrappers
  import opened Finite
  import opened VirtualIpPool
  import opened VirtualIpRuns

  datatype Slot = Slot(ip: nat, domain: string, expiresAt: nat)

  /** The first slot `f` holds of, or the length of the list. */
  function Find(l: seq<Slot>, f: Slot -> bool): (i: nat)
    ensures i <= |l|
    ensures i < |l| ==> f(l[i])
    ensures forall j :: 0 <= j < i ==> !f(l[j])
  {
    if l == [] || f(l[0]) then 0 else 1 + Find(l[1..], f)
  }

  function FindName(l: seq<Slot>, key: string): nat {
    Find(l, (s: Slot) => s.domain == key)
  }

  function FindIp(l: seq<Slot>, ip: nat): nat {
    Find(l, (s: Slot) => s.ip == ip)
  }

  function FindExpired(l: seq<Slot>, now: nat): nat {
    Find(l, (s: Slot) => s.expiresAt <= now)
  }

  /** Take slot `i` out and put `s` at the back. */
  function ToBack(l: seq<Slot>, i: nat, s: Slot): seq<Slot>
    requires i < |l|
  {
    l[..i] + l[i + 1..] + [s]
  }

  /** The slot a new name takes in a full list: the first whose answer has
      expired, or the head when none has. */
  function VictimSlot(l: seq<Slot>, now: nat): nat {
    if FindExpired(l, now) < |l| then FindExpired(l, now) else 0
  }

  function ListAllocIp(l: seq<Slot>, first: nat, len: nat, key: string, now: nat): nat
    requires 0 < len
  {
    if FindName(l, key) < |l| then l[FindName(l, key)].ip
    else if |l| < len then first + |l|
    else l[VictimSlot(l, now)].ip
  }

  function ListAlloc(l: seq<Slot>, first: nat, len: nat, key: string, now: nat): seq<Slot>
    requires 0 < len
  {
    var s := Slot(ListAllocIp(l, first, len, key, now), key, now + ADDRESS_TTL);
    if FindName(l, key) < |l| then ToBack(l, FindName(l, key), s)
    else if |l| < len then l + [s]
    else ToBack(l, VictimSlot(l, now), s)
  }

  function ListLookup(l: seq<Slot>, ip: nat): seq<Slot> {
    var i := FindIp(l, ip);
    if i < |l| then ToBack(l, i, l[i]) else l
  }

  function ListLookupName(l: seq<Slot>, ip: nat): Option<string> {
    var i := FindIp(l, ip);
    if i < |l| then Some(l[i].domain) else None
  }

  function ListRun(first: nat, last: nat, ops: seq<Op>): seq<Slot>
    requires Calm(ops)
  {
    if ops == [] then []
    else
      var l := ListRun(first, last, ops[..|ops| - 1]);
      match ops[|ops| - 1]
      case Allocate(key, now) => ListAlloc(l, first, Size(first, last), key, now)
      case Look(ip, now) => ListLookup(l, ip)
  }

  // ------------------------------------------------------------- refinement

  predicate SlotOf(m: map<nat, Address>, s: Slot) {
    s.ip in m && m[s.ip].domain == s.domain && m[s.ip].expiresAt == s.expiresAt
  }

  /** `l` is the forward map `m` in the order of its last-used stamps. */
  ghost predicate Reps(m: map<nat, Address>, l: seq<Slot>) {
    && |l| == |m|
    && (forall i :: 0 <= i < |l| ==> SlotOf(m, l[i]))
    && (forall i, j :: 0 <= i < j < |l| ==> m[l[i].ip].used < m[l[j].ip].used)
  }

  /** Every address is in the list. */
  lemma SlotIndex(m: map<nat, Address>, l: seq<Slot>, ip: nat) returns (i: nat)
    requires Reps(m, l) && ip in m
    ensures i < |l| && l[i].ip == ip
  {
    var ips := seq(|l|, i requires 0 <= i < |l| => l[i].ip);
    forall a, b | 0 <= a < b < |l| ensures ips[a] != ips[b] {
      assert m[l[a].ip].used < m[l[b].ip].used;
    }
    forall a | 0 <= a < |l| ensures ips[a] in m.Keys {
      assert SlotOf(m, l[a]);
    }
    DistinctCover(ips, m.Keys, ip);
    i :| 0 <= i < |ips| && ips[i] == ip;
  }

  lemma ToBackReps(m: map<nat, Address>, l: seq<Slot>, i: nat, a: Address)
    requires Reps(m, l) && i < |l|
    requires forall ip :: ip in m ==> m[ip].used < a.used
    ensures Reps(m[l[i].ip := a], ToBack(l, i, Slot(l[i].ip, a.domain, a.expiresAt)))
  {
    var n, r := m[l[i].ip := a], ToBack(l, i, Slot(l[i].ip, a.domain, a.expiresAt));
    assert n.Keys == m.Keys;
    assert |r| == |l|;
    forall j | 0 <= j < |r| - 1
      ensures r[j] == l[if j < i then j else j + 1] && n[r[j].ip] == m[r[j].ip] && SlotOf(n, r[j])
    {
      var k := if j < i then j else j + 1;
      assert r[j] == l[k];
      assert SlotOf(m, l[k]);
      assert m[l[k].ip].used != m[l[i].ip].used;
    }
  }

  lemma AppendReps(m: map<nat, Address>, l: seq<Slot>, ip: nat, a: Address)
    requires Reps(m, l) && ip !in m
    requires forall b :: b in m ==> m[b].used < a.used
    ensures Reps(m[ip := a], l + [Slot(ip, a.domain, a.expiresAt)])
  {
    assert m[ip := a].Keys == m.Keys + {ip};
    forall j | 0 <= j < |l| ensures SlotOf(m[ip := a], l[j]) {
      assert SlotOf(m, l[j]);
    }
  }

  lemma VictimSlotIsQuietest(m: map<nat, Address>, l: seq<Slot>, now: nat)
    requires Reps(m, l) && l != []
    ensures IsQuietest(m, Candidates(m, now), l[VictimSlot(l, now)].ip)
  {
    var i, c := VictimSlot(l, now), Candidates(m, now);
    assert SlotOf(m, l[i]);
    if FindExpired(l, now) < |l| {
      assert l[i].ip in FreeIps(m, now);
    } else {
      forall f | f in m ensures f !in FreeIps(m, now) {
        var k := SlotIndex(m, l, f);
        assert SlotOf(m, l[k]);
      }
    }
    forall ip | ip in c && ip != l[i].ip ensures Quieter(m, l[i].ip, ip) {
      var j := SlotIndex(m, l, ip);
      assert SlotOf(m, l[j]);
    }
  }

  /** The pool's victim is the list's: map order and stamps do not show. */
  lemma VictimIsFirst(p: PoolState, l: seq<Slot>, now: nat)
    requires Reps(p.ipToDomain, l) && l != []
    ensures Victim(p, now) == l[VictimSlot(l, now)].ip
  {
    hide VictimSlot;
    VictimSlotIsQuietest(p.ipToDomain, l, now);
    assert SlotOf(p.ipToDomain, l[0]);
    assert IsQuietest(p.ipToDomain, Candidates(p.ipToDomain, now), Victim(p, now));
  }

  lemma FindNameAgrees(p: PoolState, l: seq<Slot>, key: string)
    requires Reps(p.ipToDomain, l) && MutualInverse(p)
    ensures key in p.domainToIp <==> FindName(l, key) < |l|
    ensures key in p.domainToIp ==> l[FindName(l, key)].ip == p.domainToIp[key]
  {
    if key in p.domainToIp {
      var j := SlotIndex(p.ipToDomain, l, p.domainToIp[key]);
      assert SlotOf(p.ipToDomain, l[j]);
    }
    if FindName(l, key) < |l| {
      assert SlotOf(p.ipToDomain, l[FindName(l, key)]);
    }
  }

  /** One allocation: same address, and the list still tells the pool's order. */
  lemma AllocRefines(p: PoolState, l: seq<Slot>, key: string, now: nat)
    requires Inv(p) && Tight(p) && StampInv(p) && Reps(p.ipToDomain, l)
    ensures AllocIp(p, key, now) == ListAllocIp(l, p.first, p.PoolLen(), key, now)
    ensures Reps(Alloc(p, key, now).ipToDomain, ListAlloc(l, p.first, p.PoolLen(), key, now))
  {
    hide Victim, MutualInverse;
    FindNameAgrees(p, l, key);
    var a := Address(key, p.clock + 1, now + ADDRESS_TTL);
    var ip, m := AllocIp(p, key, now), p.ipToDomain;
    AllocForward(p, key, now);
    if key in p.domainToIp {
      ToBackReps(m, l, FindName(l, key), a);
    } else if Full(p) {
      VictimIsFirst(p, l, now);
      ToBackReps(m, l, VictimSlot(l, now), a);
    } else {
      CursorIsFree(p);
      AppendReps(m, l, ip, a);
    }
  }

  /** One lookup: same name, and the entry moves to the back. */
  lemma LookupRefines(p: PoolState, l: seq<Slot>, ip: nat)
    requires StampInv(p) && Reps(p.ipToDomain, l)
    ensures LookupName(p, ip) == ListLookupName(l, ip)
    ensures Reps(Lookup(p, ip).ipToDomain, ListLookup(l, ip))
  {
    var i := FindIp(l, ip);
    assert i < |l| ==> SlotOf(p.ipToDomain, l[i]);
    if ip in p.ipToDomain {
      var j := SlotIndex(p.ipToDomain, l, ip);
      ToBackReps(p.ipToDomain, l, i, p.ipToDomain[ip].(used := p.clock + 1));
      assert l[i] == Slot(ip, p.ipToDomain[ip].domain, p.ipToDomain[ip].expiresAt);
    }
  }

  /** Over every run without a recovery the pool is the recency list. */
  lemma {:induction false} RunRefinesList(first: nat, last: nat, ops: seq<Op>)
    requires Calm(ops)
    ensures Reps(Run(first, last, ops).ipToDomain, ListRun(first, last, ops))
  {
    hide Inv, Tight, StampInv, Reps, Alloc, Lookup, ListAlloc, ListLookup;
    if ops == [] {
      EmptyReps();
    } else {
      var prior := ops[..|ops| - 1];
      RunRefinesList(first, last, prior);
      CalmRunIsTight(first, last, prior);
      CalmRunKeepsStamps(first, last, prior);
      var p, l := Run(first, last, prior), ListRun(first, last, prior);
      match ops[|ops| - 1]
      case Allocate(key, now) => AllocRefines(p, l, key, now);
      case Look(ip, now) => LookupRefines(p, l, ip);
    }
  }

  lemma CalmRunIsTight(first: nat, last: nat, ops: seq<Op>)
    requires Calm(ops)
    ensures Inv(Run(first, last, ops)) && Tight(Run(first, last, ops))
    ensures Run(first, last, ops).first == first && Run(first, last, ops).last == last
  {
    RunKeepsTight(first, last, ops);
    RunKeepsInverse(first, last, ops);
  }

  lemma EmptyReps()
    ensures Reps(map[], [])
  {
  }

  /** So every address a run hands out and every name it looks up is the list's. */
  lemma RunAnswersAsList(first: nat, last: nat, ops: seq<Op>, key: string, ip: nat, now: nat)
    requires Calm(ops)
    ensures var p, l := Run(first, last, ops), ListRun(first, last, ops);
      && AllocIp(p, key, now) == ListAllocIp(l, first, Size(first, last), key, now)
      && LookupName(p, ip) == ListLookupName(l, ip)
  {
    RunRefinesList(first, last, ops);
    CalmRunIsTight(first, last, ops);
    CalmRunKeepsStamps(first, last, ops);
    AllocRefines(Run(first, last, ops), ListRun(first, last, ops), key, now);
    LookupRefines(Run(first, last, ops), ListRun(first, last, ops), ip);
  }
}
