/** Every harmful cancellation can cost the bound: from any reachable state it
    goes on, with nobody else cancelled, to two resolver calls for one name, or
    to a call that starts while an answer is remembered. With what DnsCancel
    proves this says exactly which cancellations those are. */
module DnsOverlap {
  import opened Wrappers
  import opened DnsTable
  import opened DnsFlight
  import opened DnsRuns
  import opened DnsCancel

  predicate NoneCancelled(steps: seq<Step>) {
    forall i :: 0 <= i < |steps| ==> !steps[i].Cancel?
  }

  /** `t` can follow `s` with nobody cancelled in between. */
  ghost predicate Reaches(cfg: Config, s: State, t: State) {
    exists states, steps :: Leads(cfg, states, steps, s, t)
  }

  ghost predicate Leads(cfg: Config, states: seq<State>, steps: seq<Step>, s: State, t: State) {
    IsPath(cfg, states, steps) && NoneCancelled(steps) && states[0] == s && Final(states) == t
  }

  /** One path, and then another from where it ends. */
  lemma PathThen(cfg: Config, fst: seq<State>, fsteps: seq<Step>, snd: seq<State>, ssteps: seq<Step>)
    requires IsPath(cfg, fst, fsteps) && IsPath(cfg, snd, ssteps) && Final(fst) == snd[0]
    ensures IsPath(cfg, fst + snd[1..], fsteps + ssteps)
    ensures (fst + snd[1..])[0] == fst[0] && Final(fst + snd[1..]) == Final(snd)
  {
    hide Enabled, Apply;
    var states, steps := fst + snd[1..], fsteps + ssteps;
    forall i | 0 <= i < |steps|
      ensures Enabled(cfg, states[i], steps[i]) && states[i + 1] == Apply(cfg, states[i], steps[i])
    {
      if i < |fsteps| {
        assert states[i] == fst[i] && states[i + 1] == fst[i + 1] && steps[i] == fsteps[i];
      } else {
        var j := i - |fsteps|;
        assert states[i] == snd[j] && states[i + 1] == snd[j + 1] && steps[i] == ssteps[j];
      }
    }
  }

  lemma ReachesThrough(cfg: Config, s: State, t: State, u: State)
    requires Reaches(cfg, s, t) && Reaches(cfg, t, u)
    ensures Reaches(cfg, s, u)
  {
    hide Enabled, Apply;
    var fst: seq<State>, fsteps: seq<Step> :| Leads(cfg, fst, fsteps, s, t);
    var snd: seq<State>, ssteps: seq<Step> :| Leads(cfg, snd, ssteps, t, u);
    PathThen(cfg, fst, fsteps, snd, ssteps);
    assert Leads(cfg, fst + snd[1..], fsteps + ssteps, s, u);
  }

  lemma ReachesItself(cfg: Config, s: State)
    ensures Reaches(cfg, s, s)
  {
    assert Leads(cfg, [s], [], s, s);
  }

  // -------------------------------------------------- what every state has

  /** A caller with a call under way owns it. */
  ghost predicate Owners(s: State) {
    forall c :: c in s.callers && (s.callers[c].Calling? || s.callers[c].Returned?) ==>
      s.callers[c].call < |s.calls| && s.calls[s.callers[c].call].owner == c
  }

  lemma StepKeepsOwners(cfg: Config, s: State, step: Step)
    requires Owners(s) && Enabled(cfg, s, step)
    ensures Owners(Apply(cfg, s, step))
  {
    hide Enabled, Apply;
    StepMovesCaller(cfg, s, step);
    StepGrowsCalls(cfg, s, step);
  }

  ghost predicate Good(cfg: Config, s: State) {
    1 <= cfg.maxEntries && Inv(cfg, s) && Truthful(s) && Owners(s)
  }

  lemma StepKeepsGood(cfg: Config, s: State, step: Step)
    requires Good(cfg, s) && Enabled(cfg, s, step)
    ensures Good(cfg, Apply(cfg, s, step))
  {
    hide GuardInv, PermitInv, OutcomeInv, CallInv, TableInv, Truthful, Owners, Apply, Enabled;
    StepKeepsGuardInv(cfg, s, step);
    StepKeepsPermitInv(cfg, s, step);
    StepKeepsOutcomeInv(cfg, s, step);
    StepKeepsCallInv(cfg, s, step);
    StepKeepsTableInv(cfg, s, step);
    StepKeepsTruthful(cfg, s, step);
    StepKeepsOwners(cfg, s, step);
  }

  lemma {:induction false} RunIsGood(cfg: Config, states: seq<State>, steps: seq<Step>)
    requires 1 <= cfg.maxEntries && IsRun(cfg, states, steps)
    ensures Good(cfg, Final(states))
  {
    hide GuardInv, PermitInv, OutcomeInv, CallInv, TableInv, Truthful, Owners, Apply, Enabled;
    if steps == [] {
      InitialInv(cfg);
      InitialTruthful();
      assert Owners(Initial) by { NoOwners(); }
    } else {
      RunPrefix(cfg, states, steps);
      RunIsGood(cfg, states[..|steps|], steps[..|steps| - 1]);
      StepKeepsGood(cfg, states[|steps| - 1], steps[|steps| - 1]);
    }
  }

  lemma NoOwners()
    ensures Owners(Initial)
  {
  }

  lemma Do(cfg: Config, s: State, step: Step) returns (t: State)
    requires Good(cfg, s) && Enabled(cfg, s, step) && !step.Cancel?
    ensures t == Apply(cfg, s, step) && Reaches(cfg, s, t) && Good(cfg, t)
  {
    hide Good, Enabled, Apply;
    t := Apply(cfg, s, step);
    assert Leads(cfg, [s, t], [step], s, t);
    StepKeepsGood(cfg, s, step);
  }

  /** Every answer in the table has expired. */
  ghost predicate Lapsed(s: State) {
    forall h :: h in s.entries ==> s.entries[h].expiresAt <= s.now
  }

  lemma {:induction false} LastExpiry(t: Table, now: nat) returns (time: nat)
    ensures now <= time && forall h :: h in t ==> t[h].expiresAt <= time
    decreases |t|
  {
    time := now;
    if t.Keys != {} {
      var h :| h in t.Keys;
      var rest := t - {h};
      assert t.Keys == rest.Keys + {h};
      time := LastExpiry(rest, if now < t[h].expiresAt then t[h].expiresAt else now);
      assert forall n :: n in t && n != h ==> n in rest && rest[n] == t[n];
    }
  }

  /** Time passes until nothing is remembered. */
  lemma Lapse(cfg: Config, s: State) returns (t: State)
    requires Good(cfg, s)
    ensures Reaches(cfg, s, t) && Good(cfg, t) && t == s.(now := t.now) && Lapsed(t)
  {
    hide Good;
    var time := LastExpiry(s.entries, s.now);
    t := Do(cfg, s, Tick(time));
  }

  /** With nothing remembered, any answer can be stored. */
  lemma CanStore(t: Table, max: nat, host: string, e: Entry, now: nat) returns (t': Table)
    requires 1 <= max && forall h :: h in t ==> t[h].expiresAt <= now
    ensures Stored(t, max, host, e, now, t')
  {
    t' := if |t| < max then t[host := e] else map[host := e];
    if |t| >= max {
      assert LiveNames(t, now) == {};
      assert Evicted(t, max, now, map[]);
    }
  }

  lemma {:induction false} NewCaller(callers: map<nat, Pc>) returns (c: nat)
    ensures c !in callers
    ensures forall d :: d in callers ==> d < c
    decreases |callers|
  {
    c := 0;
    if callers.Keys != {} {
      var d :| d in callers.Keys;
      var rest := callers - {d};
      assert callers.Keys == rest.Keys + {d};
      var e := NewCaller(rest);
      c := if e <= d then d + 1 else e;
      assert forall n :: n in callers && n != d ==> n in rest;
    }
  }

  // ------------------------- a caller gets ready, away from a given flight

  predicate ReadyAway(s: State, flight: nat, host: string, x: nat) {
    x in s.callers && s.callers[x].Ready? && s.callers[x].host == host && s.callers[x].flight != flight
  }

  /** A caller that no step of anyone away from `flight` concerns. */
  predicate Pinned(s: State, flight: nat, c: nat) {
    c in s.callers && (s.callers[c].Cancelled? || GuardsOf(s, c, flight))
  }

  /** Nothing about `flight`, its guards and their calls has changed, nor have
      the cancelled callers and theirs. */
  ghost predicate Kept(s: State, t: State, flight: nat) {
    && (forall c :: Pinned(s, flight, c) ==> c in t.callers && t.callers[c] == s.callers[c])
    && (forall c :: GuardsOf(t, c, flight) ==> GuardsOf(s, c, flight))
    && |s.calls| <= |t.calls|
    && (forall k :: 0 <= k < |s.calls| && Pinned(s, flight, s.calls[k].owner) ==> t.calls[k] == s.calls[k])
    && (flight in t.cells ==> flight in s.cells)
  }

  /** From `s` the run goes to `t`, where `x` is ready to call. */
  ghost predicate Led(cfg: Config, s: State, t: State, flight: nat, host: string, x: nat) {
    Reaches(cfg, s, t) && Good(cfg, t) && Kept(s, t, flight) && ReadyAway(t, flight, host, x)
  }

  lemma LedThrough(cfg: Config, s: State, t: State, u: State, flight: nat, host: string, x: nat)
    requires Reaches(cfg, s, t) && Kept(s, t, flight) && Led(cfg, t, u, flight, host, x)
    ensures Led(cfg, s, u, flight, host, x)
  {
    hide Good, Reaches;
    ReachesThrough(cfg, s, t, u);
    assert forall c :: Pinned(s, flight, c) ==> Pinned(t, flight, c);
    assert forall k :: 0 <= k < |s.calls| && Pinned(s, flight, s.calls[k].owner) ==> t.calls[k] == s.calls[k];
  }

  /** A step taken away from `flight` keeps it. */
  lemma StepKeeps(cfg: Config, s: State, step: Step, flight: nat)
    requires Owners(s) && Enabled(cfg, s, step) && !step.Say? && !step.Tick?
    requires !Pinned(s, flight, step.c) && !GuardsOf(Apply(cfg, s, step), step.c, flight)
    requires step.SetCell? ==> s.callers[step.c].flight != flight
    ensures Kept(s, Apply(cfg, s, step), flight)
  {
    StepMovesCaller(cfg, s, step);
    StepFrames(cfg, s, step);
    StepGrowsCalls(cfg, s, step);
    assert flight in Apply(cfg, s, step).cells ==> flight in s.cells by {
      if !step.SetCell? { hide Apply, Enabled; }
    }
    assert step.Start? ==> forall k :: 0 <= k < |s.calls| ==> Apply(cfg, s, step).calls[k] == s.calls[k];
    hide Enabled, Apply, PcNext;
  }

  lemma Away(cfg: Config, s: State, step: Step, flight: nat) returns (t: State)
    requires Good(cfg, s) && Enabled(cfg, s, step) && !step.Cancel? && !step.Say? && !step.Tick?
    requires !Pinned(s, flight, step.c) && !GuardsOf(Apply(cfg, s, step), step.c, flight)
    requires step.SetCell? ==> s.callers[step.c].flight != flight
    ensures t == Apply(cfg, s, step) && Reaches(cfg, s, t) && Good(cfg, t) && Kept(s, t, flight)
  {
    hide Inv, Truthful, Owners, Enabled, Apply, Kept;
    t := Do(cfg, s, step);
    StepKeeps(cfg, s, step, flight);
  }

  lemma InitingReady(cfg: Config, s: State, flight: nat, host: string, d: nat) returns (t: State, x: nat)
    requires Good(cfg, s) && d in s.callers && s.callers[d].Initing?
    requires s.callers[d].host == host && s.callers[d].flight != flight
    ensures Led(cfg, s, t, flight, host, x)
  {
    hide Good, Reaches;
    var s1 := Lapse(cfg, s);
    t := Away(cfg, s1, LookAgain(d), flight);
    x := d;
    LedThrough(cfg, s, s1, t, flight, host, x);
  }

  lemma WaitingReady(cfg: Config, s: State, flight: nat, host: string, d: nat) returns (t: State, x: nat)
    requires Good(cfg, s) && Enabled(cfg, s, Permit(d))
    requires s.callers[d].host == host && s.callers[d].flight != flight
    ensures Led(cfg, s, t, flight, host, x)
  {
    hide Good, Reaches, Led, Kept;
    var s1 := Away(cfg, s, Permit(d), flight);
    t, x := InitingReady(cfg, s1, flight, host, d);
    LedThrough(cfg, s, s1, t, flight, host, x);
  }

  /** A flight nobody has joined yet has no cell and nobody inside. */
  lemma UnbornIsFree(cfg: Config, s: State)
    requires Good(cfg, s)
    ensures |s.born| !in s.cells
    ensures forall d :: d in s.callers && Inside(s.callers[d]) ==> s.callers[d].flight != |s.born|
  {
  }

  /** With no flight for the name, a new caller starts one. */
  lemma NewcomerReady(cfg: Config, s: State, flight: nat, host: string) returns (t: State, x: nat)
    requires Good(cfg, s) && host !in s.flights && flight < |s.born|
    ensures Led(cfg, s, t, flight, host, x)
  {
    hide Good, Reaches, Led, Kept;
    var s1 := Lapse(cfg, s);
    assert Kept(s, s1, flight) by { SameIsKept(s, s1, flight); }
    var c := NewCaller(s1.callers);
    var s2 := Away(cfg, s1, Arrive(c, host), flight);
    assert s2.callers == s1.callers[c := Missed(host)];
    var s3 := Away(cfg, s2, Join(c), flight);
    assert s3.callers == s1.callers[c := Waiting(host, |s.born|)];
    UnbornIsFree(cfg, s);
    t, x := WaitingReady(cfg, s3, flight, host, c);
    LedThrough(cfg, s2, s3, t, flight, host, x);
    LedThrough(cfg, s1, s2, t, flight, host, x);
    LedThrough(cfg, s, s1, t, flight, host, x);
  }

  lemma SameIsKept(s: State, t: State, flight: nat)
    requires t.callers == s.callers && t.calls == s.calls && t.cells == s.cells
    ensures Kept(s, t, flight)
  {
  }

  /** Caller `d` guards the flight in the table for `host`, which is not `flight`. */
  predicate HoldsTable(s: State, flight: nat, host: string, d: nat) {
    && host in s.flights && s.flights[host] != flight && flight < |s.born|
    && GuardsOf(s, d, s.flights[host]) && s.callers[d].host == host
  }

  /** When a guard leaves, the way is clear for a newcomer. */
  lemma LeavingReady(cfg: Config, s: State, flight: nat, host: string, d: nat) returns (t: State, x: nat)
    requires Good(cfg, s) && HoldsTable(s, flight, host, d) && s.callers[d].Leaving?
    ensures Led(cfg, s, t, flight, host, x)
  {
    hide Good, Reaches, Led, Kept;
    var s1 := Away(cfg, s, Leave(d), flight);
    t, x := NewcomerReady(cfg, s1, flight, host);
    LedThrough(cfg, s, s1, t, flight, host, x);
  }

  lemma TakingReady(cfg: Config, s: State, flight: nat, host: string, d: nat) returns (t: State, x: nat)
    requires Good(cfg, s) && HoldsTable(s, flight, host, d) && Enabled(cfg, s, TakeCell(d))
    ensures Led(cfg, s, t, flight, host, x)
  {
    hide Good, Reaches, Led, Kept;
    var s1 := Away(cfg, s, TakeCell(d), flight);
    t, x := LeavingReady(cfg, s1, flight, host, d);
    LedThrough(cfg, s, s1, t, flight, host, x);
  }

  lemma SettledReady(cfg: Config, s: State, flight: nat, host: string, d: nat) returns (t: State, x: nat)
    requires Good(cfg, s) && HoldsTable(s, flight, host, d) && s.callers[d].Settled?
    ensures Led(cfg, s, t, flight, host, x)
  {
    hide Good, Reaches, Led, Kept;
    var s1 := Away(cfg, s, SetCell(d), flight);
    t, x := LeavingReady(cfg, s1, flight, host, d);
    LedThrough(cfg, s, s1, t, flight, host, x);
  }

  /** What the resolver said is remembered, if it is to be. */
  lemma CanRemember(cfg: Config, s: State, d: nat) returns (table: Table)
    requires 1 <= cfg.maxEntries && Lapsed(s)
    requires d in s.callers && s.callers[d].Returned? && HasReturned(s, s.callers[d].call)
    ensures Enabled(cfg, s, Remember(d, table))
    ensures var o := OutcomeOf(s, s.callers[d].host, s.callers[d].call);
      !o.Transient? ==> table == s.entries[s.callers[d].host := Entry(o, s.now + Ttl(cfg, o), s.now)]
                        || table == map[s.callers[d].host := Entry(o, s.now + Ttl(cfg, o), s.now)]
  {
    var o := OutcomeOf(s, s.callers[d].host, s.callers[d].call);
    if o.Transient? {
      table := s.entries;
    } else {
      table := CanStore(s.entries, cfg.maxEntries, s.callers[d].host,
                        Entry(o, s.now + Ttl(cfg, o), s.now), s.now);
    }
  }

  lemma ReturnedHasReturned(cfg: Config, s: State, d: nat)
    requires Good(cfg, s) && d in s.callers && s.callers[d].Returned?
    ensures 1 <= cfg.maxEntries && HasReturned(s, s.callers[d].call)
  {
  }

  lemma ReturnedReady(cfg: Config, s: State, flight: nat, host: string, d: nat) returns (t: State, x: nat)
    requires Good(cfg, s) && HoldsTable(s, flight, host, d) && s.callers[d].Returned?
    ensures Led(cfg, s, t, flight, host, x)
  {
    hide Good, Reaches, Led, Kept, Stored;
    var s1 := Lapse(cfg, s);
    assert Kept(s, s1, flight) by { SameIsKept(s, s1, flight); }
    ReturnedHasReturned(cfg, s1, d);
    var table := CanRemember(cfg, s1, d);
    var s2 := Away(cfg, s1, Remember(d, table), flight);
    t, x := SettledReady(cfg, s2, flight, host, d);
    LedThrough(cfg, s1, s2, t, flight, host, x);
    LedThrough(cfg, s, s1, t, flight, host, x);
  }

  lemma SpokenReady(cfg: Config, s: State, flight: nat, host: string, d: nat) returns (t: State, x: nat)
    requires Good(cfg, s) && HoldsTable(s, flight, host, d)
    requires s.callers[d].Calling? && HasReturned(s, s.callers[d].call)
    ensures Led(cfg, s, t, flight, host, x)
  {
    hide Good, Reaches, Led, Kept;
    var s1 := Away(cfg, s, Resume(d), flight);
    t, x := ReturnedReady(cfg, s1, flight, host, d);
    LedThrough(cfg, s, s1, t, flight, host, x);
  }

  lemma OwnsCall(cfg: Config, s: State, d: nat)
    requires Good(cfg, s) && AwaitsResolver(s, d)
    ensures s.callers[d].call < |s.calls| && s.calls[s.callers[d].call].owner == d
  {
    hide Inv, Truthful;
  }

  lemma SayKeeps(s: State, k: nat, said: Said, flight: nat)
    requires k < |s.calls| && !Pinned(s, flight, s.calls[k].owner)
    ensures Kept(s, s.(calls := s.calls[k := s.calls[k].(said := Some(said))]), flight)
  {
  }

  lemma CallingReady(cfg: Config, s: State, flight: nat, host: string, d: nat) returns (t: State, x: nat)
    requires Good(cfg, s) && HoldsTable(s, flight, host, d) && AwaitsResolver(s, d)
    ensures Led(cfg, s, t, flight, host, x)
  {
    hide Good, Reaches, Led, Kept;
    OwnsCall(cfg, s, d);
    SayKeeps(s, s.callers[d].call, CouldNotAnswer(""), flight);
    var s1 := Do(cfg, s, Say(s.callers[d].call, CouldNotAnswer("")));
    t, x := SpokenReady(cfg, s1, flight, host, d);
    LedThrough(cfg, s, s1, t, flight, host, x);
  }

  /** Whoever holds the flight in the table for `host` brings somebody there,
      or gets there. */
  lemma HolderReady(cfg: Config, s: State, flight: nat, host: string, d: nat) returns (t: State, x: nat)
    requires Good(cfg, s) && HoldsTable(s, flight, host, d) && InsideAt(s, d)
    ensures Led(cfg, s, t, flight, host, x)
  {
    hide Good, Reaches, Kept;
    match s.callers[d]
    case Initing(_, _) => t, x := InitingReady(cfg, s, flight, host, d);
    case Ready(_, _) =>
      t, x := s, d;
      ReachesItself(cfg, s);
      SameIsKept(s, s, flight);
    case Calling(_, _, _) =>
      if AwaitsResolver(s, d) {
        t, x := CallingReady(cfg, s, flight, host, d);
      } else {
        t, x := SpokenReady(cfg, s, flight, host, d);
      }
    case Returned(_, _, _) => t, x := ReturnedReady(cfg, s, flight, host, d);
    case Settled(_, _, _) => t, x := SettledReady(cfg, s, flight, host, d);
  }

  /** An undecided flight's guards wait or are inside, and a decided one's wait or leave. */
  lemma GuardStands(cfg: Config, s: State, d: nat)
    requires Good(cfg, s) && d in s.callers && Guarded(s.callers[d])
    ensures s.callers[d].flight in s.cells ==> s.callers[d].Waiting? || s.callers[d].Leaving?
    ensures s.callers[d].flight !in s.cells ==> s.callers[d].Waiting? || Inside(s.callers[d])
  {
    assert OutcomeOk(s.cells, s.callers[d]);
    assert InsideAt(s, d) <==> Inside(s.callers[d]);
  }

  /** With nobody inside an undecided flight, whoever waits for it gets the permit. */
  lemma NobodyInside(cfg: Config, s: State, d: nat)
    requires d in s.callers && s.callers[d].Waiting? && s.callers[d].flight !in s.cells
    requires forall e :: !InsideFlight(s, e, s.callers[d].flight)
    ensures Enabled(cfg, s, Permit(d))
  {
    assert forall e :: e in s.callers && Inside(s.callers[e]) ==> InsideFlight(s, e, s.callers[e].flight);
  }

  /** From any state in which `flight` is not the one in the table for `host`,
      somebody gets ready to call about `host` while `flight` stands still. */
  lemma SomebodyReady(cfg: Config, s: State, flight: nat, host: string) returns (t: State, x: nat)
    requires Good(cfg, s) && flight < |s.born| && (host in s.flights ==> s.flights[host] != flight)
    ensures Led(cfg, s, t, flight, host, x)
  {
    if host !in s.flights {
      hide Good, Led;
      t, x := NewcomerReady(cfg, s, flight, host);
      return;
    }
    var g := s.flights[host];
    var d :| GuardsOf(s, d, g);
    assert HoldsTable(s, flight, host, d);
    GuardStands(cfg, s, d);
    hide Good, Led;
    if s.callers[d].Leaving? {
      t, x := LeavingReady(cfg, s, flight, host, d);
    } else if g in s.cells {
      t, x := TakingReady(cfg, s, flight, host, d);
    } else if e :| InsideFlight(s, e, g) {
      HostOfFlight(cfg, s, d, e);
      t, x := HolderReady(cfg, s, flight, host, e);
    } else {
      assert !InsideFlight(s, d, g);
      NobodyInside(cfg, s, d);
      t, x := WaitingReady(cfg, s, flight, host, d);
    }
  }

  lemma HostOfFlight(cfg: Config, s: State, c: nat, d: nat)
    requires Good(cfg, s) && c in s.callers && d in s.callers
    requires Guarded(s.callers[c]) && Guarded(s.callers[d]) && s.callers[c].flight == s.callers[d].flight
    ensures s.callers[c].host == s.callers[d].host
  {
  }

  // --------------------------------- the flight left behind goes on meanwhile

  /** `x` stays ready, whatever another caller does. */
  lemma OtherStaysReady(cfg: Config, s: State, step: Step, flight: nat, host: string, x: nat)
    requires ReadyAway(s, flight, host, x) && Enabled(cfg, s, step)
    requires step.Say? || step.Tick? || step.c != x
    ensures ReadyAway(Apply(cfg, s, step), flight, host, x)
  {
    StepMovesCaller(cfg, s, step);
    hide Enabled, Apply, PcNext;
  }

  /** From `s` the run goes to `t`, with `x` ready all along. */
  ghost predicate Goes(cfg: Config, s: State, t: State, flight: nat, host: string, x: nat) {
    Reaches(cfg, s, t) && Good(cfg, t) && ReadyAway(t, flight, host, x)
  }

  lemma Go(cfg: Config, s: State, step: Step, flight: nat, host: string, x: nat) returns (t: State)
    requires Good(cfg, s) && ReadyAway(s, flight, host, x) && Enabled(cfg, s, step) && !step.Cancel?
    requires step.Say? || step.Tick? || step.c != x
    ensures t == Apply(cfg, s, step) && Goes(cfg, s, t, flight, host, x)
  {
    hide Good, Enabled, Apply, ReadyAway;
    t := Do(cfg, s, step);
    OtherStaysReady(cfg, s, step, flight, host, x);
  }

  /** Caller `d` is inside `flight`, about `host`. */
  predicate Within(s: State, flight: nat, host: string, d: nat) {
    InsideFlight(s, d, flight) && s.callers[d].host == host
  }

  predicate Awaits(s: State, flight: nat, host: string, d: nat) {
    Within(s, flight, host, d) && AwaitsResolver(s, d)
  }

  lemma ReadyCalls(cfg: Config, s: State, flight: nat, host: string, x: nat, d: nat) returns (t: State)
    requires Good(cfg, s) && ReadyAway(s, flight, host, x)
    requires Within(s, flight, host, d) && s.callers[d].Ready?
    ensures Goes(cfg, s, t, flight, host, x) && Awaits(t, flight, host, d)
  {
    hide Good, Goes;
    t := Go(cfg, s, Start(d), flight, host, x);
  }

  lemma GoesThrough(cfg: Config, s: State, t: State, u: State, flight: nat, host: string, x: nat)
    requires Reaches(cfg, s, t) && Goes(cfg, t, u, flight, host, x)
    ensures Goes(cfg, s, u, flight, host, x)
  {
    hide Reaches, Good;
    ReachesThrough(cfg, s, t, u);
  }

  lemma InitingCalls(cfg: Config, s: State, flight: nat, host: string, x: nat, d: nat) returns (t: State)
    requires Good(cfg, s) && ReadyAway(s, flight, host, x)
    requires Within(s, flight, host, d) && s.callers[d].Initing?
    ensures Goes(cfg, s, t, flight, host, x) && Awaits(t, flight, host, d)
  {
    hide Good, Reaches;
    var s1 := Lapse(cfg, s);
    var s2 := Go(cfg, s1, LookAgain(d), flight, host, x);
    t := ReadyCalls(cfg, s2, flight, host, x, d);
    GoesThrough(cfg, s1, s2, t, flight, host, x);
    GoesThrough(cfg, s, s1, t, flight, host, x);
  }

  lemma WaitingCalls(cfg: Config, s: State, flight: nat, host: string, x: nat, d: nat) returns (t: State)
    requires Good(cfg, s) && ReadyAway(s, flight, host, x) && Enabled(cfg, s, Permit(d))
    requires s.callers[d].flight == flight && s.callers[d].host == host
    ensures Goes(cfg, s, t, flight, host, x) && Awaits(t, flight, host, d)
  {
    hide Good, Reaches;
    var s1 := Go(cfg, s, Permit(d), flight, host, x);
    t := InitingCalls(cfg, s1, flight, host, x, d);
    GoesThrough(cfg, s, s1, t, flight, host, x);
  }

  /** Somebody inside has yet to hear from the resolver, and calls it. */
  lemma InsiderCalls(cfg: Config, s: State, flight: nat, host: string, x: nat, d: nat) returns (t: State)
    requires Good(cfg, s) && ReadyAway(s, flight, host, x)
    requires Within(s, flight, host, d) && May(cfg, ACall, s, s.callers[d])
    ensures Goes(cfg, s, t, flight, host, x) && Awaits(t, flight, host, d)
  {
    hide Good, Reaches;
    if s.callers[d].Initing? {
      t := InitingCalls(cfg, s, flight, host, x, d);
    } else if s.callers[d].Ready? {
      t := ReadyCalls(cfg, s, flight, host, x, d);
    } else {
      t := s;
      ReachesItself(cfg, s);
    }
  }

  lemma FlightCalls(cfg: Config, s: State, flight: nat, host: string, x: nat, c: nat) returns (t: State, d: nat)
    requires Good(cfg, s) && ReadyAway(s, flight, host, x)
    requires GuardsOf(s, c, flight) && s.callers[c].host == host && Open(cfg, ACall, s, flight)
    ensures Goes(cfg, s, t, flight, host, x) && Awaits(t, flight, host, d)
  {
    hide Good, Goes, May;
    GuardStands(cfg, s, c);
    if e :| InsideFlight(s, e, flight) {
      d := e;
      HostOfFlight(cfg, s, c, d);
      t := InsiderCalls(cfg, s, flight, host, x, d);
    } else {
      d := c;
      NobodyInside(cfg, s, c);
      t := WaitingCalls(cfg, s, flight, host, x, c);
    }
  }

  // ----------------------------------------------- two calls for one name

  /** A second call starts beside one that runs. */
  lemma StartSecond(cfg: Config, s: State, flight: nat, host: string, x: nat, k: nat) returns (t: State)
    requires Good(cfg, s) && ReadyAway(s, flight, host, x) && Runs(s, k, host)
    ensures Reaches(cfg, s, t) && TwoCalls(t, host)
  {
    hide Good, Reaches;
    t := Do(cfg, s, Start(x));
    assert Runs(t, k, host) && Runs(t, |s.calls|, host);
  }

  lemma AwaitedRuns(cfg: Config, s: State, d: nat)
    requires Good(cfg, s) && AwaitsResolver(s, d)
    ensures Runs(s, s.callers[d].call, s.callers[d].host)
  {
    hide Truthful, GuardInv, PermitInv, OutcomeInv, TableInv, Owners;
  }

  /** An open flight that is not the one in the table leads to two calls. */
  lemma OpenFlightDoubles(cfg: Config, s: State, flight: nat, host: string, c: nat) returns (t: State)
    requires Good(cfg, s) && GuardsOf(s, c, flight) && s.callers[c].host == host && flight < |s.born|
    requires host in s.flights ==> s.flights[host] != flight
    requires Open(cfg, ACall, s, flight)
    ensures Reaches(cfg, s, t) && TwoCalls(t, host)
  {
    hide Good, TwoCalls, Reaches;
    var s1, x := SomebodyReady(cfg, s, flight, host);
    KeptStaysOpen(cfg, ACall, s, s1, flight);
    assert GuardsOf(s1, c, flight) && s1.callers[c] == s.callers[c] by { assert Pinned(s, flight, c); }
    hide Open;
    var s2, d := FlightCalls(cfg, s1, flight, host, x, c);
    AwaitedRuns(cfg, s2, d);
    t := StartSecond(cfg, s2, flight, host, x, s2.callers[d].call);
    ReachesThrough(cfg, s1, s2, t);
    ReachesThrough(cfg, s, s1, t);
  }

  lemma KeptStaysOpen(cfg: Config, aim: Aim, s: State, t: State, flight: nat)
    requires Good(cfg, s) && Kept(s, t, flight) && Open(cfg, aim, s, flight)
    ensures Open(cfg, aim, t, flight)
  {
    forall d | InsideFlight(t, d, flight) ensures May(cfg, aim, t, t.callers[d]) {
      assert GuardsOf(t, d, flight);
      assert Pinned(s, flight, d);
    }
  }

  /** Cancelling a guard takes its flight out of the table. */
  lemma CancelDetaches(cfg: Config, s: State, c: nat)
    requires Good(cfg, s) && Enabled(cfg, s, Cancel(c)) && Guarded(s.callers[c])
    ensures var t, pc := Apply(cfg, s, Cancel(c)), s.callers[c];
      && (pc.host in t.flights ==> t.flights[pc.host] != pc.flight)
      && pc.flight < |t.born| && t.calls == s.calls && t.cells == s.cells
      && t.callers == s.callers[c := Cancelled(pc.host)]
  {
  }

  /** Without the cancelled caller its flight is open, if it was open without it. */
  lemma StillOpen(cfg: Config, aim: Aim, s: State, t: State, c: nat, flight: nat)
    requires OpenWithout(cfg, aim, s, c, flight) && t.calls == s.calls && t.cells == s.cells
    requires c in t.callers && !Guarded(t.callers[c]) && t.callers == s.callers[c := t.callers[c]]
    ensures Open(cfg, aim, t, flight) && exists d :: d != c && GuardsOf(t, d, flight)
  {
    var d :| d != c && GuardsOf(s, d, flight);
    assert GuardsOf(t, d, flight);
    forall e | InsideFlight(t, e, flight) ensures May(cfg, aim, t, t.callers[e]) {
      assert InsideFlight(s, e, flight);
      SameCallsSameMay(cfg, aim, s, t);
    }
  }

  /** From any reachable state, a cancellation that leaves behind a running
      call, or a flight that may start one, can be followed by two calls for
      the name at once, with nobody else cancelled. */
  lemma CancelCanDouble(cfg: Config, states: seq<State>, steps: seq<Step>, c: nat) returns (t: State)
    requires 1 <= cfg.maxEntries && IsRun(cfg, states, steps)
    requires Enabled(cfg, Final(states), Cancel(c)) && Doubles(cfg, Final(states), c)
    ensures Reaches(cfg, Apply(cfg, Final(states), Cancel(c)), t) && TwoCalls(t, Final(states).callers[c].host)
  {
    hide Good, TwoCalls, Reaches, OpenWithout, Open, Enabled, Apply;
    var s := Final(states);
    var pc, s' := s.callers[c], Apply(cfg, s, Cancel(c));
    RunIsGood(cfg, states, steps);
    StepKeepsGood(cfg, s, Cancel(c));
    CancelDetaches(cfg, s, c);
    if AwaitsResolver(s, c) {
      AwaitedRuns(cfg, s, c);
      OwnsCall(cfg, s, c);
      var s1, x := SomebodyReady(cfg, s', pc.flight, pc.host);
      assert Pinned(s', pc.flight, c);
      t := StartSecond(cfg, s1, pc.flight, pc.host, x, pc.call);
      ReachesThrough(cfg, s', s1, t);
    } else {
      StillOpen(cfg, ACall, s, s', c, pc.flight);
      var d :| d != c && GuardsOf(s', d, pc.flight);
      HostOfFlight(cfg, s, c, d);
      t := OpenFlightDoubles(cfg, s', pc.flight, pc.host, d);
    }
  }

  lemma {:induction false} ReachedStaysSingle(cfg: Config, states: seq<State>, steps: seq<Step>)
    requires IsPath(cfg, states, steps) && NoneCancelled(steps)
    requires Good(cfg, states[0]) && SingleInv(cfg, states[0])
    ensures Good(cfg, Final(states)) && SingleInv(cfg, Final(states))
  {
    hide GuardInv, PermitInv, OutcomeInv, CallInv, TableInv, Truthful, Owners, SingleInv, Apply, Enabled;
    if steps != [] {
      var n := |steps| - 1;
      ReachedStaysSingle(cfg, states[..n + 1], steps[..n]);
      StepKeepsGood(cfg, states[n], steps[n]);
      StepKeepsSingle(cfg, states[n], steps[n]);
    }
  }

  /** Exactly which cancellations cost the bound: as long as none of them has
      happened, one more cancellation can be followed by two calls for a name at
      once, with nobody else cancelled, if and only if it is one of them. */
  lemma TwoCallsAfterCancelIff(cfg: Config, states: seq<State>, steps: seq<Step>, c: nat)
    requires 1 <= cfg.maxEntries && IsRun(cfg, states, steps) && NoneDoubles(cfg, states, steps)
    requires Enabled(cfg, Final(states), Cancel(c))
    ensures (exists t, host :: Reaches(cfg, Apply(cfg, Final(states), Cancel(c)), t) && TwoCalls(t, host))
            <==> Doubles(cfg, Final(states), c)
  {
    hide Good, TwoCalls, SingleInv, OpenWithout, Inv, Truthful, Owners, Enabled, Apply, NoneDoubles;
    var s := Final(states);
    var s' := Apply(cfg, s, Cancel(c));
    if Doubles(cfg, s, c) {
      var t := CancelCanDouble(cfg, states, steps, c);
      assert Reaches(cfg, s', t) && TwoCalls(t, s.callers[c].host);
    } else {
      RunIsGood(cfg, states, steps);
      GoodIsInv(cfg, s);
      RunKeepsSingle(cfg, states, steps);
      StepKeepsGood(cfg, s, Cancel(c));
      StepKeepsSingle(cfg, s, Cancel(c));
      forall t, host | Reaches(cfg, s', t) ensures !TwoCalls(t, host) {
        var more, msteps :| Leads(cfg, more, msteps, s', t);
        ReachedStaysSingle(cfg, more, msteps);
        GoodIsInv(cfg, t);
        SingleHasNoTwo(cfg, t, host);
      }
    }
  }

  lemma GoodIsInv(cfg: Config, s: State)
    requires Good(cfg, s)
    ensures Inv(cfg, s) && PermitInv(s) && OutcomeInv(s) && CallInv(s)
  {
  }

  // ------------------------------------ a call although an answer is there

  /** The flight left behind stores an answer that holds, with `x` ready. */
  lemma ReturnedStores(cfg: Config, s: State, flight: nat, host: string, x: nat, d: nat) returns (t: State)
    requires Good(cfg, s) && ReadyAway(s, flight, host, x)
    requires Within(s, flight, host, d) && s.callers[d].Returned? && HasReturned(s, s.callers[d].call)
    requires Lasting(cfg, OutcomeOf(s, host, s.callers[d].call))
    ensures Goes(cfg, s, t, flight, host, x) && Hit(t.entries, host, t.now)
  {
    hide Good, Reaches, Conclude, Stored;
    var s1 := Lapse(cfg, s);
    ReturnedHasReturned(cfg, s1, d);
    var table := CanRemember(cfg, s1, d);
    t := Go(cfg, s1, Remember(d, table), flight, host, x);
    GoesThrough(cfg, s, s1, t, flight, host, x);
  }

  lemma SpokenStores(cfg: Config, s: State, flight: nat, host: string, x: nat, d: nat) returns (t: State)
    requires Good(cfg, s) && ReadyAway(s, flight, host, x)
    requires Within(s, flight, host, d) && s.callers[d].Calling? && HasReturned(s, s.callers[d].call)
    requires Lasting(cfg, OutcomeOf(s, host, s.callers[d].call))
    ensures Goes(cfg, s, t, flight, host, x) && Hit(t.entries, host, t.now)
  {
    hide Good, Reaches, Conclude, Hit;
    var s1 := Go(cfg, s, Resume(d), flight, host, x);
    t := ReturnedStores(cfg, s1, flight, host, x, d);
    GoesThrough(cfg, s, s1, t, flight, host, x);
  }

  /** Something the resolver may say that is remembered for a while. */
  function Memorable(cfg: Config): Said {
    if 0 < cfg.positiveTtl then Addresses([""]) else NoSuchName("")
  }

  lemma AwaitingStores(cfg: Config, s: State, flight: nat, host: string, x: nat, d: nat) returns (t: State)
    requires Good(cfg, s) && ReadyAway(s, flight, host, x) && Possible(cfg, AStore)
    requires Awaits(s, flight, host, d)
    ensures Goes(cfg, s, t, flight, host, x) && Hit(t.entries, host, t.now)
  {
    hide Good, Reaches, Hit;
    OwnsCall(cfg, s, d);
    var s1 := Go(cfg, s, Say(s.callers[d].call, Memorable(cfg)), flight, host, x);
    t := SpokenStores(cfg, s1, flight, host, x, d);
    GoesThrough(cfg, s, s1, t, flight, host, x);
  }

  lemma InsiderStores(cfg: Config, s: State, flight: nat, host: string, x: nat, d: nat) returns (t: State)
    requires Good(cfg, s) && ReadyAway(s, flight, host, x) && Possible(cfg, AStore)
    requires Within(s, flight, host, d) && May(cfg, AStore, s, s.callers[d])
    ensures Goes(cfg, s, t, flight, host, x) && Hit(t.entries, host, t.now)
  {
    hide Good, Reaches, Hit, Lasting, OutcomeOf;
    if s.callers[d].Returned? {
      t := ReturnedStores(cfg, s, flight, host, x, d);
    } else if s.callers[d].Calling? && HasReturned(s, s.callers[d].call) {
      t := SpokenStores(cfg, s, flight, host, x, d);
    } else {
      var s1 := InsiderCalls(cfg, s, flight, host, x, d);
      t := AwaitingStores(cfg, s1, flight, host, x, d);
      GoesThrough(cfg, s, s1, t, flight, host, x);
    }
  }

  lemma FlightStores(cfg: Config, s: State, flight: nat, host: string, x: nat, c: nat) returns (t: State)
    requires Good(cfg, s) && ReadyAway(s, flight, host, x)
    requires GuardsOf(s, c, flight) && s.callers[c].host == host && Open(cfg, AStore, s, flight)
    ensures Goes(cfg, s, t, flight, host, x) && Hit(t.entries, host, t.now)
  {
    hide Good, Reaches, May, Hit;
    GuardStands(cfg, s, c);
    if e :| InsideFlight(s, e, flight) {
      HostOfFlight(cfg, s, c, e);
      t := InsiderStores(cfg, s, flight, host, x, e);
    } else {
      NobodyInside(cfg, s, c);
      var s1 := WaitingCalls(cfg, s, flight, host, x, c);
      t := AwaitingStores(cfg, s1, flight, host, x, c);
      GoesThrough(cfg, s, s1, t, flight, host, x);
    }
  }

  lemma OpenFlightRestarts(cfg: Config, s: State, flight: nat, host: string, c: nat) returns (t: State)
    requires Good(cfg, s) && GuardsOf(s, c, flight) && s.callers[c].host == host && flight < |s.born|
    requires host in s.flights ==> s.flights[host] != flight
    requires Open(cfg, AStore, s, flight)
    ensures Reaches(cfg, s, t) && StartsRemembered(cfg, t, host)
  {
    hide Good, Reaches, Hit;
    var s1, x := SomebodyReady(cfg, s, flight, host);
    KeptStaysOpen(cfg, AStore, s, s1, flight);
    assert GuardsOf(s1, c, flight) && s1.callers[c] == s.callers[c] by { assert Pinned(s, flight, c); }
    hide Open;
    t := FlightStores(cfg, s1, flight, host, x, c);
    assert Enabled(cfg, t, Start(x));
    ReachesThrough(cfg, s, s1, t);
  }

  /** From any reachable state, a cancellation that leaves behind a flight that
      may store an answer can be followed by a call that starts while an answer
      for the name is in the table, with nobody else cancelled. */
  lemma CancelCanRestart(cfg: Config, states: seq<State>, steps: seq<Step>, c: nat) returns (t: State)
    requires 1 <= cfg.maxEntries && IsRun(cfg, states, steps)
    requires Enabled(cfg, Final(states), Cancel(c)) && Restarts(cfg, Final(states), c)
    ensures Reaches(cfg, Apply(cfg, Final(states), Cancel(c)), t)
    ensures StartsRemembered(cfg, t, Final(states).callers[c].host)
  {
    hide Good, StartsRemembered, Reaches, OpenWithout, Open, Enabled, Apply;
    var s := Final(states);
    var pc, s' := s.callers[c], Apply(cfg, s, Cancel(c));
    RunIsGood(cfg, states, steps);
    StepKeepsGood(cfg, s, Cancel(c));
    CancelDetaches(cfg, s, c);
    StillOpen(cfg, AStore, s, s', c, pc.flight);
    var d :| d != c && GuardsOf(s', d, pc.flight);
    HostOfFlight(cfg, s, c, d);
    t := OpenFlightRestarts(cfg, s', pc.flight, pc.host, d);
  }

  lemma {:induction false} ReachedStaysFresh(cfg: Config, states: seq<State>, steps: seq<Step>)
    requires IsPath(cfg, states, steps) && NoneCancelled(steps)
    requires Good(cfg, states[0]) && FreshInv(cfg, states[0])
    ensures Good(cfg, Final(states)) && FreshInv(cfg, Final(states))
  {
    hide Inv, Truthful, Owners, FreshInv, Apply, Enabled;
    if steps != [] {
      var n := |steps| - 1;
      ReachedStaysFresh(cfg, states[..n + 1], steps[..n]);
      StepKeepsGood(cfg, states[n], steps[n]);
      StepKeepsFresh(cfg, states[n], steps[n]);
    }
  }

  /** Exactly which cancellations let a call start while an answer is
      remembered, as long as none of them has happened. */
  lemma RestartAfterCancelIff(cfg: Config, states: seq<State>, steps: seq<Step>, c: nat)
    requires 1 <= cfg.maxEntries && IsRun(cfg, states, steps) && NoneRestarts(cfg, states, steps)
    requires Enabled(cfg, Final(states), Cancel(c))
    ensures (exists t, host :: Reaches(cfg, Apply(cfg, Final(states), Cancel(c)), t) && StartsRemembered(cfg, t, host))
            <==> Restarts(cfg, Final(states), c)
  {
    hide Good, StartsRemembered, FreshInv, OpenWithout, Inv, Truthful, Owners, Enabled, Apply, NoneRestarts;
    var s := Final(states);
    var s' := Apply(cfg, s, Cancel(c));
    if Restarts(cfg, s, c) {
      var t := CancelCanRestart(cfg, states, steps, c);
      assert Reaches(cfg, s', t) && StartsRemembered(cfg, t, s.callers[c].host);
    } else {
      RunIsGood(cfg, states, steps);
      GoodIsInv(cfg, s);
      RunKeepsFresh(cfg, states, steps);
      StepKeepsGood(cfg, s, Cancel(c));
      StepKeepsFresh(cfg, s, Cancel(c));
      forall t, host | Reaches(cfg, s', t) ensures !StartsRemembered(cfg, t, host) {
        var more, msteps :| Leads(cfg, more, msteps, s', t);
        ReachedStaysFresh(cfg, more, msteps);
        FreshHasNoRestart(cfg, t, host);
      }
    }
  }

  lemma FreshHasNoRestart(cfg: Config, s: State, host: string)
    requires FreshInv(cfg, s)
    ensures !StartsRemembered(cfg, s, host)
  {
  }

  // --------------------------------------------------- such runs there are

  ghost predicate Chained(cfg: Config, s: State, step: Step, t: State) {
    Enabled(cfg, s, step) && t == Apply(cfg, s, step)
  }

  /** Caller `c`, unknown so far, goes as far as calling the resolver about a
      name with no flight and nothing remembered. */
  lemma ApproachRuns(cfg: Config, s: State, c: nat, host: string) returns (states: seq<State>, steps: seq<Step>)
    requires c !in s.callers && host !in s.flights && host !in s.entries && |s.born| !in s.cells
    requires forall d :: d in s.callers ==> !Inside(s.callers[d])
    ensures IsPath(cfg, states, steps) && states[0] == s && Final(states).entries == s.entries
    ensures Final(states).calls == s.calls + [Call(host, c, None)]
    ensures Final(states).callers == s.callers[c := Calling(host, |s.born|, |s.calls|)]
    ensures Final(states).flights == s.flights[host := |s.born|]
    ensures Final(states).born == s.born + [host] && Final(states).cells == s.cells
  {
    var s1 := Move(s, c, Missed(host));
    var s2 := JoinFlight(s1, c, host);
    var s3 := Move(s2, c, Initing(host, |s.born|));
    var s4 := Move(s3, c, Ready(host, |s.born|));
    var s5 := Move(s4.(calls := s.calls + [Call(host, c, None)]), c, Calling(host, |s.born|, |s.calls|));
    assert Chained(cfg, s, Arrive(c, host), s1);
    assert Chained(cfg, s1, Join(c), s2);
    assert Chained(cfg, s2, Permit(c), s3);
    assert Chained(cfg, s3, LookAgain(c), s4);
    assert Chained(cfg, s4, Start(c), s5);
    assert s5.callers == s.callers[c := Calling(host, |s.born|, |s.calls|)];
    hide Enabled, Apply;
    states := [s, s1, s2, s3, s4, s5];
    steps := [Arrive(c, host), Join(c), Permit(c), LookAgain(c), Start(c)];
  }

  /** With a cancellation the bound is lost: the cancelled caller's call keeps
      running while the next caller starts another for the same name. */
  lemma CancellationAllowsTwoCalls(cfg: Config, host: string) returns (states: seq<State>, steps: seq<Step>)
    ensures IsRun(cfg, states, steps) && !NoneCancelled(steps)
    ensures Final(states).calls == [Call(host, 0, None), Call(host, 1, None)]
  {
    var fst, fsteps := ApproachRuns(cfg, Initial, 0, host);
    var s := Final(fst);
    var t := Apply(cfg, s, Cancel(0));
    assert t.callers == map[0 := Cancelled(host)];
    assert host !in t.flights;
    assert IsPath(cfg, [s, t], [Cancel(0)]);
    var snd, ssteps := ApproachRuns(cfg, t, 1, host);
    hide Enabled, Apply, IsPath;
    PathThen(cfg, fst, fsteps, [s, t], [Cancel(0)]);
    PathThen(cfg, fst + [s, t][1..], fsteps + [Cancel(0)], snd, ssteps);
    states, steps := fst + [s, t][1..] + snd[1..], fsteps + [Cancel(0)] + ssteps;
    assert steps[|fsteps|] == Cancel(0);
  }

  /** Two callers waiting for one flight, neither inside: cancelling either is
      harmful in both ways, if anything is remembered at all. */
  lemma WaitersMakeHarm(cfg: Config, host: string) returns (states: seq<State>, steps: seq<Step>)
    ensures IsRun(cfg, states, steps) && Enabled(cfg, Final(states), Cancel(0))
    ensures Doubles(cfg, Final(states), 0) && (Restarts(cfg, Final(states), 0) <==> Possible(cfg, AStore))
  {
    var s1 := Move(Initial, 0, Missed(host));
    var s2 := JoinFlight(s1, 0, host);
    var s3 := Move(s2, 1, Missed(host));
    var s4 := JoinFlight(s3, 1, host);
    assert Chained(cfg, Initial, Arrive(0, host), s1);
    assert Chained(cfg, s1, Join(0), s2);
    assert Chained(cfg, s2, Arrive(1, host), s3);
    assert Chained(cfg, s3, Join(1), s4);
    assert s4.callers == map[0 := Waiting(host, 0), 1 := Waiting(host, 0)];
    assert GuardsOf(s4, 1, 0);
    assert Enabled(cfg, s4, Cancel(0));
    hide Enabled, Apply;
    states := [Initial, s1, s2, s3, s4];
    steps := [Arrive(0, host), Join(0), Arrive(1, host), Join(1)];
  }
}
