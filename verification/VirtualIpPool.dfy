/** One family's pool of virtual addresses, as two maps and a cursor
    (crates/nexapipe-client/src/virtual_ip.rs).

    `PoolState` and the functions over it specify what each operation does; the
    class `Pool` performs the operations in place and is proved against them.
 */
module VirtualIpPool {
  import opened Wrappers
  import opened Text

  /** The TTL of every DNS answer handed out: sixty seconds, in nanoseconds. */
  const ADDRESS_TTL: nat := 60_000_000_000

  datatype Address = Address(domain: string, used: nat, expiresAt: nat)

  datatype PoolState = PoolState(
    ipToDomain: map<nat, Address>,
    domainToIp: map<string, nat>,
    clock: nat,
    next: nat,
    first: nat,
    last: nat)
  {
    function PoolLen(): nat {
      Size(first, last)
    }
  }

  /** How many addresses a pool between `first` and `last` has: one at least. */
  function Size(first: nat, last: nat): nat {
    (if first <= last then last - first else 0) + 1
  }

  function Empty(first: nat, last: nat): PoolState {
    PoolState(map[], map[], 0, first, first, last)
  }

  // ---------------------------------------------------------------- the key

  /** Unicode's White_Space. */
  predicate IsSpace(c: char) {
    || '\t' <= c <= '\r' || c == ' ' || c == '\U{0085}' || c == '\U{00A0}' || c == '\U{1680}'
    || '\U{2000}' <= c <= '\U{200A}' || c == '\U{2028}' || c == '\U{2029}' || c == '\U{202F}'
    || c == '\U{205F}' || c == '\U{3000}'
  }

  function TrimStart(s: string): string {
    if s != "" && IsSpace(s[0]) then TrimStart(s[1..]) else s
  }

  function TrimEnd(s: string): string {
    if s != "" && IsSpace(s[|s| - 1]) then TrimEnd(s[..|s| - 1]) else s
  }

  /** The pool's key for a name: white space and trailing dots off, lower case. */
  function FoldDomain(domain: string): string {
    Lower(TrimDots(TrimEnd(TrimStart(domain))))
  }

  /** Adding a dot at the end leaves the key as it is, unless white space comes
      before the dot: it is then no longer at the end, and is kept. */
  lemma TrailingDotFoldsAwayIff(domain: string)
    ensures FoldDomain(domain + ".") == FoldDomain(domain)
            <==> TrimStart(domain) == "" || !IsSpace(domain[|domain| - 1])
  {
    hide Lower;
    var u := TrimStart(domain);
    TrimStartBeforeDot(domain);
    TrimStartKeepsEnd(domain);
    DotGoesFirst(u);
    hide TrimStart;
    if u != "" && IsSpace(u[|u| - 1]) {
      TrimEndShortens(u);
      TrimDotsShortens(TrimEnd(u));
    }
  }

  lemma DotGoesFirst(u: string)
    ensures TrimEnd(u + ".") == u + "." && TrimDots(u + ".") == TrimDots(u)
    ensures u != "" && IsSpace(u[|u| - 1]) ==> TrimDots(u) == u
    ensures u != "" && !IsSpace(u[|u| - 1]) ==> TrimEnd(u) == u
  {
    assert (u + ".")[..|u|] == u;
  }

  lemma {:induction false} TrimStartBeforeDot(s: string)
    ensures TrimStart(s + ".") == TrimStart(s) + "."
  {
    if s != "" && IsSpace(s[0]) {
      TrimStartBeforeDot(s[1..]);
      assert (s + ".")[1..] == s[1..] + ".";
    }
  }

  lemma {:induction false} TrimStartKeepsEnd(s: string)
    ensures TrimStart(s) != "" ==> s != "" && TrimStart(s)[|TrimStart(s)| - 1] == s[|s| - 1]
  {
    if s != "" && IsSpace(s[0]) {
      TrimStartKeepsEnd(s[1..]);
    }
  }

  lemma {:induction false} TrimEndShortens(s: string)
    ensures |TrimEnd(s)| <= |s|
    ensures s != "" && IsSpace(s[|s| - 1]) ==> |TrimEnd(s)| < |s|
  {
    if s != "" && IsSpace(s[|s| - 1]) {
      TrimEndShortens(s[..|s| - 1]);
    }
  }

  lemma {:induction false} TrimDotsShortens(s: string)
    ensures |TrimDots(s)| <= |s|
  {
    if s != "" && s[|s| - 1] == '.' {
      TrimDotsShortens(s[..|s| - 1]);
    }
  }

  predicate AllSpace(s: string) {
    forall i :: 0 <= i < |s| ==> IsSpace(s[i])
  }

  predicate NoSpaceAtEnds(s: string) {
    s != "" ==> !IsSpace(s[0]) && !IsSpace(s[|s| - 1])
  }

  /** `name` is `core`, then dots, between white space. */
  ghost predicate IsKeyOf(name: string, core: string) {
    exists a, dots, b :: Wrapped(name, a, core, dots, b)
  }

  predicate Wrapped(name: string, a: string, core: string, dots: string, b: string) {
    && name == a + (core + dots) + b && AllSpace(a) && AllSpace(b) && IsDots(dots)
    && NoDotAtEnd(core) && NoSpaceAtEnds(core + dots)
  }

  lemma {:induction false} TrimStartOf(a: string, t: string)
    requires AllSpace(a) && (t != "" ==> !IsSpace(t[0]))
    ensures TrimStart(a + t) == t
  {
    hide IsSpace;
    if a == "" {
      assert a + t == t;
    } else {
      assert (a + t)[1..] == a[1..] + t;
      TrimStartOf(a[1..], t);
    }
  }

  lemma {:induction false} TrimEndOf(t: string, b: string)
    requires AllSpace(b) && (t != "" ==> !IsSpace(t[|t| - 1]))
    ensures TrimEnd(t + b) == t
  {
    hide IsSpace;
    if b == "" {
      assert t + b == t;
    } else {
      assert (t + b)[..|t + b| - 1] == t + b[..|b| - 1];
      TrimEndOf(t, b[..|b| - 1]);
    }
  }

  lemma FoldIsLowerCore(name: string, core: string)
    requires IsKeyOf(name, core)
    ensures FoldDomain(name) == Lower(core)
  {
    hide IsSpace, TrimStart, TrimEnd;
    var a, dots, b :| Wrapped(name, a, core, dots, b);
    var m := core + dots;
    if m == "" {
      assert name == (a + b) + "";
      TrimStartOf(a + b, "");
      TrimEndOf("", "");
    } else {
      assert name == a + (m + b);
      TrimStartOf(a, m + b);
      TrimEndOf(m, b);
    }
    TrimDotsOf(core, dots);
  }

  lemma {:induction false} SpacesSplitStart(s: string) returns (a: string, t: string)
    ensures s == a + t && AllSpace(a) && (t != "" ==> !IsSpace(t[0]))
  {
    hide IsSpace;
    if s != "" && IsSpace(s[0]) {
      var c;
      c, t := SpacesSplitStart(s[1..]);
      a := [s[0]] + c;
    } else {
      a, t := "", s;
    }
  }

  lemma {:induction false} SpacesSplitEnd(s: string) returns (t: string, b: string)
    ensures s == t + b && AllSpace(b) && (t != "" ==> !IsSpace(t[|t| - 1]))
  {
    hide IsSpace;
    if s != "" && IsSpace(s[|s| - 1]) {
      var c;
      t, c := SpacesSplitEnd(s[..|s| - 1]);
      b := c + [s[|s| - 1]];
    } else {
      t, b := s, "";
    }
  }

  /** Every name is of that shape. */
  lemma KeyExists(name: string) returns (core: string)
    ensures IsKeyOf(name, core)
  {
    hide IsSpace;
    var a, t := SpacesSplitStart(name);
    var m, b := SpacesSplitEnd(t);
    var dots;
    core, dots := DotsSplit(m);
    assert m != "" ==> m[0] == t[0];
    assert Wrapped(name, a, core, dots, b);
  }

  /** Two names share a key, and so an address, exactly when they are the same
      character by character up to ASCII case, apart from white space around
      them and dots at their end. */
  lemma SameKeyIff(x: string, xCore: string, y: string, yCore: string)
    requires IsKeyOf(x, xCore) && IsKeyOf(y, yCore)
    ensures FoldDomain(x) == FoldDomain(y) <==> SameUpToCase(xCore, yCore)
  {
    hide FoldDomain, IsKeyOf;
    FoldIsLowerCore(x, xCore);
    FoldIsLowerCore(y, yCore);
    LowerIff(xCore, yCore);
  }

  // ------------------------------------------------------------- operations

  function Touch(p: PoolState, ip: nat): PoolState {
    var clock := p.clock + 1;
    if ip in p.ipToDomain
    then p.(clock := clock, ipToDomain := p.ipToDomain[ip := p.ipToDomain[ip].(used := clock)])
    else p.(clock := clock)
  }

  function Answer(p: PoolState, ip: nat, now: nat): PoolState {
    if ip in p.ipToDomain
    then p.(ipToDomain := p.ipToDomain[ip := p.ipToDomain[ip].(expiresAt := now + ADDRESS_TTL)])
    else p
  }

  /** `(used, ip)` of `a` comes before that of `b`, lexicographically. */
  predicate Quieter(m: map<nat, Address>, a: nat, b: nat)
    requires a in m && b in m
  {
    m[a].used < m[b].used || (m[a].used == m[b].used && a < b)
  }

  predicate Free(m: map<nat, Address>, ip: nat, now: nat)
    requires ip in m
  {
    m[ip].expiresAt <= now
  }

  /** `v` is the least of the addresses in `among`. */
  ghost predicate IsQuietest(m: map<nat, Address>, among: set<nat>, v: nat)
    requires among <= m.Keys
  {
    v in among && forall ip :: ip in among && ip != v ==> Quieter(m, v, ip)
  }

  ghost function FreeIps(m: map<nat, Address>, now: nat): set<nat> {
    set ip | ip in m && Free(m, ip, now)
  }

  /** The addresses a new domain may be given: the free ones, or all when none is free. */
  ghost function Candidates(m: map<nat, Address>, now: nat): set<nat> {
    if FreeIps(m, now) != {} then FreeIps(m, now) else m.Keys
  }

  lemma {:induction false} QuietestExists(m: map<nat, Address>, among: set<nat>)
    requires among <= m.Keys && among != {}
    ensures exists v :: IsQuietest(m, among, v)
  {
    var x :| x in among;
    var rest := among - {x};
    assert among == rest + {x};
    if rest == {} {
      assert IsQuietest(m, among, x);
    } else {
      QuietestExists(m, rest);
      var v :| IsQuietest(m, rest, v);
      assert IsQuietest(m, among, if Quieter(m, x, v) then x else v);
    }
  }

  /** What `recyclable_address` answers. */
  ghost function Victim(p: PoolState, now: nat): (v: nat)
    ensures p.ipToDomain != map[] ==> IsQuietest(p.ipToDomain, Candidates(p.ipToDomain, now), v)
  {
    if p.ipToDomain == map[] then p.first else
    assert p.ipToDomain.Keys != {};
    QuietestExists(p.ipToDomain, Candidates(p.ipToDomain, now));
    var v :| IsQuietest(p.ipToDomain, Candidates(p.ipToDomain, now), v);
    v
  }

  predicate Full(p: PoolState) {
    |p.ipToDomain| >= p.PoolLen()
  }

  /** The address a name not yet in the pool is given. */
  ghost function ChosenIp(p: PoolState, now: nat): nat {
    if Full(p) then Victim(p, now) else p.next
  }

  function NextCursor(p: PoolState): nat {
    if Full(p) then p.next else if p.next >= p.last then p.first else p.next + 1
  }

  /** How far an allocation got before it was interrupted. */
  datatype Point = CursorMoved | ForwardInserted | ReverseRemoved | ReverseInserted

  ghost function ForwardInsert(p: PoolState, key: string, now: nat): PoolState {
    p.(ipToDomain := p.ipToDomain[ChosenIp(p, now) := Address(key, 0, now + ADDRESS_TTL)],
       next := NextCursor(p))
  }

  ghost function PreviousNames(p: PoolState, now: nat): set<string> {
    var ip := ChosenIp(p, now);
    if ip in p.ipToDomain then {p.ipToDomain[ip].domain} else {}
  }

  /** The pool when allocating a new name has reached `point`. */
  ghost function AllocUpTo(p: PoolState, key: string, now: nat, point: Point): PoolState {
    var reverse := p.domainToIp - PreviousNames(p, now);
    match point
    case CursorMoved => p.(next := NextCursor(p))
    case ForwardInserted => ForwardInsert(p, key, now)
    case ReverseRemoved => ForwardInsert(p, key, now).(domainToIp := reverse)
    case ReverseInserted =>
      ForwardInsert(p, key, now).(domainToIp := reverse[key := ChosenIp(p, now)])
  }

  ghost function AllocIp(p: PoolState, key: string, now: nat): nat {
    if key in p.domainToIp then p.domainToIp[key] else ChosenIp(p, now)
  }

  ghost function Alloc(p: PoolState, key: string, now: nat): PoolState {
    if key in p.domainToIp
    then Answer(Touch(p, p.domainToIp[key]), p.domainToIp[key], now)
    else Touch(AllocUpTo(p, key, now, ReverseInserted), ChosenIp(p, now))
  }

  function Lookup(p: PoolState, ip: nat): PoolState {
    if ip in p.ipToDomain then Touch(p, ip) else p
  }

  function LookupName(p: PoolState, ip: nat): Option<string> {
    if ip in p.ipToDomain then Some(p.ipToDomain[ip].domain) else None
  }

  ghost function DomainsOf(m: map<nat, Address>): set<string> {
    set ip | ip in m :: m[ip].domain
  }

  ghost predicate DistinctDomains(m: map<nat, Address>) {
    forall a, b :: a in m && b in m && m[a].domain == m[b].domain ==> a == b
  }

  /** `r` is a map collected from the forward map's entries, in some order. */
  ghost predicate IsReverse(m: map<nat, Address>, r: map<string, nat>) {
    r.Keys == DomainsOf(m) && forall d :: d in r ==> r[d] in m && m[r[d]].domain == d
  }

  ghost function Rebuild(p: PoolState): (q: PoolState)
    ensures IsReverse(p.ipToDomain, q.domainToIp)
    ensures q == p.(domainToIp := q.domainToIp)
  {
    var m := p.ipToDomain;
    p.(domainToIp := map d | d in DomainsOf(m) :: (var ip :| ip in m && m[ip].domain == d; ip))
  }

  /** The name held by each address. */
  function Names(p: PoolState): map<nat, string> {
    map ip | ip in p.ipToDomain :: p.ipToDomain[ip].domain
  }

  // ------------------------------------------------------------- invariants

  /** The two maps say the same thing. */
  ghost predicate MutualInverse(p: PoolState) {
    && (forall ip :: ip in p.ipToDomain ==>
          && p.ipToDomain[ip].domain in p.domainToIp
          && p.domainToIp[p.ipToDomain[ip].domain] == ip)
    && (forall d :: d in p.domainToIp ==>
          && p.domainToIp[d] in p.ipToDomain
          && p.ipToDomain[p.domainToIp[d]].domain == d)
  }

  predicate InPool(p: PoolState, ip: nat) {
    p.first <= ip < p.first + p.PoolLen()
  }

  /** How many addresses lie between `ip` and the cursor, going round. */
  function Behind(p: PoolState, ip: nat): int {
    if ip < p.next then p.next - 1 - ip else p.next - 1 - ip + p.PoolLen()
  }

  /** The occupied addresses are the ones right behind the cursor, going round
      from the first address to the last, and no others. */
  ghost predicate Ring(p: PoolState) {
    && InPool(p, p.next)
    && forall ip: nat :: ip in p.ipToDomain <==> InPool(p, ip) && Behind(p, ip) < |p.ipToDomain|
  }

  ghost predicate Inv(p: PoolState) {
    MutualInverse(p) && Ring(p)
  }

  /** The cursor is as far from the first address as there are occupied ones,
      unless the pool is full. */
  predicate Tight(p: PoolState) {
    Full(p) || p.next == p.first + |p.ipToDomain|
  }

  /** Last-used stamps are positive, distinct and bounded by the clock. */
  ghost predicate StampInv(p: PoolState) {
    && (forall ip :: ip in p.ipToDomain ==> 1 <= p.ipToDomain[ip].used <= p.clock)
    && (forall a, b :: a in p.ipToDomain && b in p.ipToDomain && a != b ==>
          p.ipToDomain[a].used != p.ipToDomain[b].used)
  }

  /** The cursor is a free address of the pool for as long as there is one. */
  lemma CursorIsFree(p: PoolState)
    requires Ring(p) && !Full(p)
    ensures p.next !in p.ipToDomain && InPool(p, p.next)
  {
  }

  /** In a tight pool the occupied addresses are those before the cursor, or all. */
  lemma TightIsInterval(p: PoolState)
    requires Ring(p) && Tight(p)
    ensures Full(p) ==> forall ip: nat :: ip in p.ipToDomain <==> InPool(p, ip)
    ensures !Full(p) ==> forall ip: nat :: ip in p.ipToDomain <==> p.first <= ip < p.next
  {
  }

  lemma ChosenIsHeldWhenFull(p: PoolState, now: nat)
    requires Full(p)
    ensures ChosenIp(p, now) in p.ipToDomain
    ensures FreeIps(p.ipToDomain, now) != {} ==> Free(p.ipToDomain, ChosenIp(p, now), now)
  {
    assert p.ipToDomain != map[];
  }

  /** Taking the cursor's address moves the ring on by one. */
  lemma RingAdvances(p: PoolState, q: PoolState)
    requires Ring(p) && !Full(p) && q.first == p.first && q.last == p.last
    requires q.next == NextCursor(p) && q.ipToDomain.Keys == p.ipToDomain.Keys + {p.next}
    ensures Ring(q) && (Tight(p) ==> Tight(q))
  {
    assert p.next !in p.ipToDomain;
    assert |q.ipToDomain.Keys| == |p.ipToDomain| + 1;
    forall ip: nat ensures ip in q.ipToDomain <==> InPool(q, ip) && Behind(q, ip) < |q.ipToDomain| {
      assert ip in p.ipToDomain <==> InPool(p, ip) && Behind(p, ip) < |p.ipToDomain|;
    }
  }

  lemma SameKeysSameRing(p: PoolState, q: PoolState)
    requires q.ipToDomain.Keys == p.ipToDomain.Keys && q.first == p.first && q.last == p.last && q.next == p.next
    ensures Ring(p) ==> Ring(q)
    ensures Tight(p) ==> Tight(q)
  {
    assert |q.ipToDomain.Keys| == |p.ipToDomain.Keys|;
  }

  lemma ForwardInsertKeepsCursor(p: PoolState, key: string, now: nat)
    requires Ring(p)
    ensures Ring(ForwardInsert(p, key, now)) && (Tight(p) ==> Tight(ForwardInsert(p, key, now)))
    ensures InPool(p, ChosenIp(p, now))
    ensures Full(p) <==> ChosenIp(p, now) in p.ipToDomain
  {
    hide Victim;
    var q := ForwardInsert(p, key, now);
    if Full(p) {
      ChosenIsHeldWhenFull(p, now);
      assert q.ipToDomain.Keys == p.ipToDomain.Keys;
      SameKeysSameRing(p, q);
    } else {
      assert q.ipToDomain.Keys == p.ipToDomain.Keys + {p.next};
      RingAdvances(p, q);
    }
  }

  lemma TouchKeeps(p: PoolState, ip: nat)
    ensures Ring(p) ==> Ring(Touch(p, ip))
    ensures Tight(p) ==> Tight(Touch(p, ip))
    ensures MutualInverse(p) ==> MutualInverse(Touch(p, ip))
    ensures Names(Touch(p, ip)) == Names(p)
  {
    assert Touch(p, ip).ipToDomain.Keys == p.ipToDomain.Keys;
    SameKeysSameRing(p, Touch(p, ip));
    hide Ring, Tight;
  }

  lemma AnswerKeeps(p: PoolState, ip: nat, now: nat)
    ensures Ring(p) ==> Ring(Answer(p, ip, now))
    ensures Tight(p) ==> Tight(Answer(p, ip, now))
    ensures MutualInverse(p) ==> MutualInverse(Answer(p, ip, now))
    ensures Names(Answer(p, ip, now)) == Names(p)
  {
    assert Answer(p, ip, now).ipToDomain.Keys == p.ipToDomain.Keys;
    SameKeysSameRing(p, Answer(p, ip, now));
    hide Ring, Tight;
  }

  lemma NewNameInverts(p: PoolState, key: string, now: nat)
    requires MutualInverse(p) && key !in p.domainToIp
    ensures MutualInverse(AllocUpTo(p, key, now, ReverseInserted))
  {
    hide ChosenIp;
  }

  lemma AllocKeepsInverse(p: PoolState, key: string, now: nat)
    requires MutualInverse(p)
    ensures MutualInverse(Alloc(p, key, now))
  {
    hide Ring, Tight, MutualInverse, ChosenIp;
    if key in p.domainToIp {
      var ip := p.domainToIp[key];
      TouchKeeps(p, ip);
      AnswerKeeps(Touch(p, ip), ip, now);
    } else {
      NewNameInverts(p, key, now);
      TouchKeeps(AllocUpTo(p, key, now, ReverseInserted), ChosenIp(p, now));
    }
  }

  lemma AllocKeepsCursor(p: PoolState, key: string, now: nat)
    requires Ring(p)
    ensures Ring(Alloc(p, key, now)) && (Tight(p) ==> Tight(Alloc(p, key, now)))
  {
    hide Ring, Tight, MutualInverse, ChosenIp;
    if key in p.domainToIp {
      var ip := p.domainToIp[key];
      TouchKeeps(p, ip);
      AnswerKeeps(Touch(p, ip), ip, now);
    } else {
      ForwardInsertKeepsCursor(p, key, now);
      var q := AllocUpTo(p, key, now, ReverseInserted);
      SameKeysSameRing(ForwardInsert(p, key, now), q);
      TouchKeeps(q, ChosenIp(p, now));
    }
  }

  /** An allocation keeps the two maps inverse and the occupied addresses right
      behind the cursor. */
  lemma AllocKeepsInv(p: PoolState, key: string, now: nat)
    requires Inv(p)
    ensures Inv(Alloc(p, key, now)) && (Tight(p) ==> Tight(Alloc(p, key, now)))
  {
    hide Ring, Tight, MutualInverse, Alloc;
    AllocKeepsInverse(p, key, now);
    AllocKeepsCursor(p, key, now);
  }

  lemma AllocKeepsStamps(p: PoolState, key: string, now: nat)
    requires MutualInverse(p) && StampInv(p)
    ensures StampInv(Alloc(p, key, now))
  {
    hide ChosenIp;
  }

  lemma LookupKeepsInv(p: PoolState, ip: nat)
    ensures MutualInverse(p) ==> MutualInverse(Lookup(p, ip))
    ensures Ring(p) ==> Ring(Lookup(p, ip))
    ensures Tight(p) ==> Tight(Lookup(p, ip))
  {
    TouchKeeps(p, ip);
  }

  /** An allocation writes one entry of the forward map. */
  lemma AllocForward(p: PoolState, key: string, now: nat)
    requires MutualInverse(p)
    ensures Alloc(p, key, now).ipToDomain
            == p.ipToDomain[AllocIp(p, key, now) := Address(key, p.clock + 1, now + ADDRESS_TTL)]
  {
    hide ChosenIp;
  }

  lemma NamesAfterWrite(p: PoolState, q: PoolState, ip: nat, a: Address)
    requires q.ipToDomain == p.ipToDomain[ip := a]
    ensures Names(q) == Names(p)[ip := a.domain]
    ensures ip in p.ipToDomain && p.ipToDomain[ip].domain == a.domain ==> Names(q) == Names(p)
  {
  }

  /** A known name keeps its address, nobody moves, and the hold starts again. */
  lemma KnownNameStays(p: PoolState, key: string, now: nat)
    requires Inv(p) && key in p.domainToIp
    ensures var q, ip := Alloc(p, key, now), p.domainToIp[key];
      && AllocIp(p, key, now) == ip
      && InPool(p, ip)
      && Names(q) == Names(p)
      && LookupName(q, ip) == Some(key)
      && q.ipToDomain[ip].expiresAt == now + ADDRESS_TTL
  {
    hide Alloc;
    AllocForward(p, key, now);
    var ip := p.domainToIp[key];
    NamesAfterWrite(p, Alloc(p, key, now), ip, Address(key, p.clock + 1, now + ADDRESS_TTL));
    hide Names;
  }

  /** A new name takes a free address of the pool while there is one, and the
      address of exactly one name afterwards. */
  lemma NewNameMoves(p: PoolState, key: string, now: nat)
    requires Inv(p) && key !in p.domainToIp
    ensures var q, ip := Alloc(p, key, now), AllocIp(p, key, now);
      && InPool(p, ip)
      && Names(q) == Names(p)[ip := key]
      && LookupName(q, ip) == Some(key)
      && q.ipToDomain[ip].expiresAt == now + ADDRESS_TTL
      && (ip in p.ipToDomain <==> Full(p))
      && q.domainToIp.Keys == (if Full(p) then p.domainToIp.Keys - {p.ipToDomain[ip].domain}
                               else p.domainToIp.Keys) + {key}
  {
    hide ChosenIp, Ring, MutualInverse, Names;
    ForwardInsertKeepsCursor(p, key, now);
    AllocReverse(p, key, now);
    AllocForward(p, key, now);
    hide Alloc;
    NamesAfterWrite(p, Alloc(p, key, now), ChosenIp(p, now), Address(key, p.clock + 1, now + ADDRESS_TTL));
  }

  lemma AllocReverse(p: PoolState, key: string, now: nat)
    requires key !in p.domainToIp
    ensures Alloc(p, key, now).domainToIp.Keys == p.domainToIp.Keys - PreviousNames(p, now) + {key}
  {
    hide ChosenIp, NextCursor;
  }

  lemma AllocHands(p: PoolState, key: string, now: nat)
    requires MutualInverse(p)
    ensures var q, ip := Alloc(p, key, now), AllocIp(p, key, now);
      LookupName(q, ip) == Some(key) && q.ipToDomain[ip].expiresAt == now + ADDRESS_TTL
  {
    AllocForward(p, key, now);
    hide Alloc, AllocIp;
  }

  predicate AllLive(p: PoolState, now: nat) {
    forall ip :: ip in p.ipToDomain ==> p.ipToDomain[ip].expiresAt > now
  }

  /** Going from `p` to `q` at `now` takes `ip` away while the answer that named
      it may still be cached. */
  predicate Breaks(p: PoolState, q: PoolState, ip: nat, now: nat) {
    && ip in p.ipToDomain
    && p.ipToDomain[ip].expiresAt > now
    && LookupName(q, ip) != LookupName(p, ip)
  }

  /** What costs a live answer: nobody has expired in a full pool, or the
      cursor of a pool that is not full is at an address that is held and live. */
  predicate Costly(p: PoolState, key: string, now: nat) {
    && key !in p.domainToIp
    && if Full(p) then AllLive(p, now) else p.next in p.ipToDomain && p.ipToDomain[p.next].expiresAt > now
  }

  /** Only the address handed out can change hands, and only to a new name. */
  lemma BreakMeansCostly(p: PoolState, key: string, now: nat, ip: nat)
    requires MutualInverse(p) && Breaks(p, Alloc(p, key, now), ip, now)
    ensures Costly(p, key, now) && ip == ChosenIp(p, now)
  {
    AllocForward(p, key, now);
    hide Alloc, Victim;
    if Full(p) {
      ChosenIsHeldWhenFull(p, now);
      forall a | a in p.ipToDomain ensures p.ipToDomain[a].expiresAt > now {
        assert a in FreeIps(p.ipToDomain, now) || p.ipToDomain[a].expiresAt > now;
      }
    }
  }

  /** An allocation takes an address away while the answer that named it may
      still be cached exactly when the name is new and, in a full pool, no
      answer has expired; in one that is not, the cursor's address is held and
      its answer has not expired. */
  lemma AllocBreaksLiveAnswerIff(p: PoolState, key: string, now: nat)
    requires MutualInverse(p)
    ensures (exists ip :: Breaks(p, Alloc(p, key, now), ip, now)) <==> Costly(p, key, now)
  {
    hide Alloc, Victim;
    forall ip | Breaks(p, Alloc(p, key, now), ip, now) ensures Costly(p, key, now) {
      BreakMeansCostly(p, key, now, ip);
    }
    if Costly(p, key, now) {
      AllocForward(p, key, now);
      if Full(p) {
        ChosenIsHeldWhenFull(p, now);
      }
      assert Breaks(p, Alloc(p, key, now), ChosenIp(p, now), now);
    }
  }

  /** With the occupied addresses right behind the cursor that is: exactly when
      the name is new, the pool is full, and no answer has expired. */
  lemma CostlyMeansCrowded(p: PoolState, key: string, now: nat)
    requires Ring(p)
    ensures Costly(p, key, now) <==> key !in p.domainToIp && Full(p) && AllLive(p, now)
  {
    if !Full(p) {
      CursorIsFree(p);
    }
  }

  // --------------------------------------------------------------- recovery

  /** An interruption after the cursor has moved and before the forward insert
      leaves an address out. The occupied addresses are still the ones right
      behind the cursor exactly if the cursor did not move, the pool being full,
      or there are none; and still the ones before it exactly if the pool is
      full or has one address. */
  lemma CursorMovedAloneIsExactIff(p: PoolState)
    requires Ring(p)
    ensures Ring(p.(next := NextCursor(p))) <==> Full(p) || p.ipToDomain == map[]
    ensures Tight(p) ==> (Ring(p.(next := NextCursor(p))) && Tight(p.(next := NextCursor(p)))
                          <==> Full(p) || p.PoolLen() == 1)
  {
    var q := p.(next := NextCursor(p));
    if !Full(p) {
      CursorIsFree(p);
      assert Behind(q, p.next) == 0;
      assert p.ipToDomain != map[] ==> |p.ipToDomain| > 0;
      assert |p.ipToDomain| > 0 ==> !Ring(q);
    }
  }

  /** At every point of an interrupted allocation the forward map names each domain once. */
  lemma TornDomainsDistinct(p: PoolState, key: string, now: nat, point: Point)
    requires MutualInverse(p) && key !in p.domainToIp
    ensures DistinctDomains(AllocUpTo(p, key, now, point).ipToDomain)
  {
  }

  lemma RebuildInverts(p: PoolState)
    requires DistinctDomains(p.ipToDomain)
    ensures MutualInverse(Rebuild(p))
  {
    var q := Rebuild(p);
    forall ip | ip in q.ipToDomain
      ensures q.ipToDomain[ip].domain in q.domainToIp && q.domainToIp[q.ipToDomain[ip].domain] == ip
    {
      assert q.ipToDomain[ip].domain in DomainsOf(p.ipToDomain);
    }
  }

  /** Whatever point an allocation was interrupted at, rebuilding the reverse
      map makes the two inverse again; only the forward map is trusted, and it
      does not change. The occupied addresses are right behind the cursor again
      unless the cursor had moved and nothing else, in a pool that was neither
      full nor empty. */
  lemma RecoveryRestoresInv(p: PoolState, key: string, now: nat, point: Point)
    requires MutualInverse(p) && key !in p.domainToIp
    ensures var torn := AllocUpTo(p, key, now, point);
      MutualInverse(Rebuild(torn)) && Rebuild(torn).ipToDomain == torn.ipToDomain
    ensures Ring(p) ==>
      (Ring(Rebuild(AllocUpTo(p, key, now, point)))
       <==> (point.CursorMoved? ==> Full(p) || p.ipToDomain == map[]))
  {
    TornDomainsDistinct(p, key, now, point);
    var torn := AllocUpTo(p, key, now, point);
    RebuildInverts(torn);
    if Ring(p) {
      TornRing(p, key, now, point);
    }
  }

  lemma TornRing(p: PoolState, key: string, now: nat, point: Point)
    requires Ring(p)
    ensures var q := Rebuild(AllocUpTo(p, key, now, point));
      && (Ring(q) <==> (point.CursorMoved? ==> Full(p) || p.ipToDomain == map[]))
      && (Tight(p) ==> (Ring(q) && Tight(q) <==> (point.CursorMoved? ==> Full(p) || p.PoolLen() == 1)))
  {
    var torn := AllocUpTo(p, key, now, point);
    var q := Rebuild(torn);
    SameKeysSameRing(torn, q);
    SameKeysSameRing(q, torn);
    if point.CursorMoved? {
      CursorMovedAloneIsExactIff(p);
    } else {
      ForwardInsertKeepsCursor(p, key, now);
      SameKeysSameRing(ForwardInsert(p, key, now), torn);
    }
    hide Ring, Tight;
  }

  /** Every name that held an address before the interrupted allocation, other
      than the one it displaced, holds the same address after recovery; the new
      name holds its own exactly if the forward insert had happened. */
  lemma RecoveryKeepsSurvivors(p: PoolState, key: string, now: nat, point: Point, d: string)
    requires MutualInverse(p) && key !in p.domainToIp
    requires d in p.domainToIp && (point.CursorMoved? || d !in PreviousNames(p, now))
    ensures var q := Rebuild(AllocUpTo(p, key, now, point));
      && d in q.domainToIp && q.domainToIp[d] == p.domainToIp[d]
      && (key in q.domainToIp <==> !point.CursorMoved?)
      && (key in q.domainToIp ==> q.domainToIp[key] == ChosenIp(p, now))
  {
    RecoveryRestoresInv(p, key, now, point);
    var q := Rebuild(AllocUpTo(p, key, now, point));
    assert q.ipToDomain[p.domainToIp[d]].domain == d;
    assert !point.CursorMoved? ==> q.ipToDomain[ChosenIp(p, now)].domain == key;
  }
}
