/** The pool as the program runs it: two maps, a clock and a cursor updated in
    place (crates/nexapipe-client/src/virtual_ip.rs, `Pool`). */
module VirtualIp {
  import opened Wrappers
  import S = VirtualIpPool

  class Pool {
    var ipToDomain: map<nat, S.Address>
    var domainToIp: map<string, nat>
    var clock: nat
    var next: nat
    const first: nat
    const last: nat

    function State(): S.PoolState
      reads this
    {
      S.PoolState(ipToDomain, domainToIp, clock, next, first, last)
    }

    constructor (first: nat, last: nat)
      ensures State() == S.Empty(first, last)
      ensures S.Inv(State()) && S.Tight(State()) && S.StampInv(State())
    {
      ipToDomain, domainToIp, clock, next := map[], map[], 0, first;
      this.first, this.last := first, last;
    }

    method Touch(ip: nat)
      modifies this`clock, this`ipToDomain
      ensures State() == S.Touch(old(State()), ip)
    {
      clock := clock + 1;
      if ip in ipToDomain {
        ipToDomain := ipToDomain[ip := ipToDomain[ip].(used := clock)];
      }
    }

    method Answer(ip: nat, now: nat)
      modifies this`ipToDomain
      ensures State() == S.Answer(old(State()), ip, now)
    {
      if ip in ipToDomain {
        ipToDomain := ipToDomain[ip := ipToDomain[ip].(expiresAt := now + S.ADDRESS_TTL)];
      }
    }

    /** One walk over the map, in whatever order it yields its entries, keeping
        the least address seen and the least free one. */
    method RecyclableAddress(now: nat) returns (ip: nat)
      ensures ip == S.Victim(State(), now)
    {
      var quietest: Option<nat>, free: Option<nat> := None, None;
      var m := ipToDomain;
      var rest := m.Keys;
      while rest != {}
        invariant rest <= m.Keys
        invariant LeastSoFar(m, m.Keys - rest, quietest)
        invariant LeastSoFar(m, S.FreeIps(m, now) - rest, free)
      {
        var a :| a in rest;
        LeastExtends(m, m.Keys - rest, quietest, a);
        assert m.Keys - (rest - {a}) == m.Keys - rest + {a};
        if m[a].expiresAt <= now {
          LeastExtends(m, S.FreeIps(m, now) - rest, free, a);
          assert S.FreeIps(m, now) - (rest - {a}) == S.FreeIps(m, now) - rest + {a};
        } else {
          assert S.FreeIps(m, now) - (rest - {a}) == S.FreeIps(m, now) - rest;
        }
        if quietest.None? || S.Quieter(m, a, quietest.value) {
          quietest := Some(a);
        }
        if m[a].expiresAt <= now && (free.None? || S.Quieter(m, a, free.value)) {
          free := Some(a);
        }
        rest := rest - {a};
      }
      assert m.Keys - rest == m.Keys;
      assert S.FreeIps(m, now) - rest == S.FreeIps(m, now);
      ip := match free case Some(a) => a case None => (match quietest case Some(b) => b case None => first);
    }

    method Alloc(domain: string, now: nat) returns (ip: nat)
      modifies this
      ensures var key := S.FoldDomain(domain);
        && State() == S.Alloc(old(State()), key, now)
        && ip == S.AllocIp(old(State()), key, now)
    {
      hide S.FoldDomain, S.Victim;
      var key := S.FoldDomain(domain);
      if key in domainToIp {
        ip := domainToIp[key];
        Touch(ip);
        Answer(ip, now);
        return;
      }
      if |ipToDomain| < S.PoolState(ipToDomain, domainToIp, clock, next, first, last).PoolLen() {
        ip := next;
        next := if ip >= last then first else ip + 1;
      } else {
        ip := RecyclableAddress(now);
      }
      var previous := if ip in ipToDomain then {ipToDomain[ip].domain} else {};
      ipToDomain := ipToDomain[ip := S.Address(key, 0, now + S.ADDRESS_TTL)];
      domainToIp := domainToIp - previous;
      domainToIp := domainToIp[key := ip];
      Touch(ip);
    }

    method Lookup(ip: nat) returns (name: Option<string>)
      modifies this`clock, this`ipToDomain
      ensures State() == S.Lookup(old(State()), ip)
      ensures name == S.LookupName(old(State()), ip)
    {
      if ip !in ipToDomain {
        return None;
      }
      clock := clock + 1;
      ipToDomain := ipToDomain[ip := ipToDomain[ip].(used := clock)];
      name := Some(ipToDomain[ip].domain);
    }

    /** Collects the reverse map again from the forward one, in whatever order
        the forward map yields its entries. */
    method RebuildReverse()
      modifies this`domainToIp
      ensures S.IsReverse(ipToDomain, domainToIp)
      ensures S.DistinctDomains(ipToDomain) ==> State() == S.Rebuild(old(State()))
    {
      var m := ipToDomain;
      var rest := m.Keys;
      domainToIp := map[];
      while rest != {}
        modifies this`domainToIp
        invariant rest <= m.Keys
        invariant forall d :: d in domainToIp ==> domainToIp[d] in m && m[domainToIp[d]].domain == d
        invariant forall ip :: ip in m.Keys - rest ==> m[ip].domain in domainToIp
      {
        var ip :| ip in rest;
        domainToIp := domainToIp[m[ip].domain := ip];
        rest := rest - {ip};
      }
      assert S.IsReverse(m, domainToIp);
      if S.DistinctDomains(m) {
        ReverseIsUnique(m, domainToIp, S.Rebuild(old(State())).domainToIp);
      }
    }
  }

  /** `least` is the quietest of `seen`, or nothing when nothing was seen. */
  ghost predicate LeastSoFar(m: map<nat, S.Address>, seen: set<nat>, least: Option<nat>)
    requires seen <= m.Keys
  {
    match least
    case None => seen == {}
    case Some(v) => S.IsQuietest(m, seen, v)
  }

  lemma LeastExtends(m: map<nat, S.Address>, seen: set<nat>, least: Option<nat>, a: nat)
    requires seen <= m.Keys && LeastSoFar(m, seen, least) && a in m && a !in seen
    ensures LeastSoFar(m, seen + {a},
      if least.None? || S.Quieter(m, a, least.value) then Some(a) else least)
  {
  }

  lemma ReverseIsUnique(m: map<nat, S.Address>, a: map<string, nat>, b: map<string, nat>)
    requires S.DistinctDomains(m) && S.IsReverse(m, a) && S.IsReverse(m, b)
    ensures a == b
  {
  }
}
