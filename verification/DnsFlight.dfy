/** The single-flight protocol as a transition system (crates/nexapipe/src/dns.rs, `resolve`).

    Any number of callers interleave. Each looks the name up, joins the name's
    flight, and either runs the resolution as the one holder of the flight's
    cell or waits for the cell; its guard forgets the flight when the caller
    finishes or is cancelled. A flight is known by its place in `born`, the
    sequence of flights ever created. */
module DnsFlight {
  import opened Wrappers
  import opened DnsTable

  /** What the resolver said, or that it did not run. */
  datatype Said =
    | Addresses(addrs: seq<string>)
    | NoSuchName(why: string)
    | CouldNotAnswer(why: string)
    | DidNotRun(why: string)

  /** What a caller is told when the resolver said `said` about `host`. */
  function Conclude(host: string, said: Said): Outcome {
    match said
    case Addresses(addrs) =>
      if addrs != [] then Found(addrs) else NotFound(host + " does not exist")
    case NoSuchName(why) => NotFound(why)
    case CouldNotAnswer(why) => Transient(why)
    case DidNotRun(why) => Transient("the resolver did not run: " + why)
  }

  /** Where a caller is. */
  datatype Pc =
    | Missed(host: string)                                // looked up and found nothing
    | Waiting(host: string, flight: nat)                  // joined; awaiting the cell
    | Initing(host: string, flight: nat)                  // holds the cell's permit
    | Ready(host: string, flight: nat)                    // looked up again and found nothing
    | Calling(host: string, flight: nat, call: nat)       // awaiting the resolver
    | Returned(host: string, flight: nat, call: nat)      // the resolver has spoken
    | Settled(host: string, flight: nat, outcome: Outcome) // remembered what there is to remember
    | Leaving(host: string, flight: nat, outcome: Outcome) // the cell is set; the guard is next
    | Done(host: string, joined: Option<nat>, outcome: Outcome)
    | Cancelled(host: string)

  predicate Guarded(pc: Pc) {
    pc.Waiting? || Inside(pc) || pc.Leaving?
  }

  /** Runs the flight's initializer. */
  predicate Inside(pc: Pc) {
    pc.Initing? || pc.Ready? || pc.Calling? || pc.Returned? || pc.Settled?
  }

  /** A resolver call; it runs until something is said. A call outlives a
      caller that is cancelled. */
  datatype Call = Call(host: string, owner: nat, said: Option<Said>)

  /** An answer that was remembered: the call it came from, and when it was stored. */
  datatype Memory = Memory(call: nat, at: nat)

  datatype State = State(
    now: nat,
    entries: Table,
    flights: map<string, nat>,
    born: seq<string>,
    ended: set<nat>,
    cells: map<nat, Outcome>,
    callers: map<nat, Pc>,
    calls: seq<Call>,
    memories: seq<Memory>)

  const Initial: State := State(0, map[], map[], [], {}, map[], map[], [], [])

  datatype Config = Config(positiveTtl: nat, negativeTtl: nat, maxEntries: nat)

  function Ttl(cfg: Config, o: Outcome): nat {
    if o.Found? then cfg.positiveTtl else cfg.negativeTtl
  }

  predicate HasReturned(s: State, call: nat) {
    call < |s.calls| && s.calls[call].said.Some?
  }

  function OutcomeOf(s: State, host: string, call: nat): Outcome
    requires HasReturned(s, call)
  {
    Conclude(host, s.calls[call].said.value)
  }

  datatype Step =
    | Arrive(c: nat, host: string)
    | Join(c: nat)
    | Permit(c: nat)
    | LookAgain(c: nat)
    | Start(c: nat)
    | Say(call: nat, said: Said)
    | Resume(c: nat)
    | Remember(c: nat, table: Table)
    | SetCell(c: nat)
    | TakeCell(c: nat)
    | Leave(c: nat)
    | Cancel(c: nat)
    | Tick(time: nat)

  ghost predicate Enabled(cfg: Config, s: State, step: Step) {
    match step
    case Arrive(c, host) => c !in s.callers
    case Join(c) => c in s.callers && s.callers[c].Missed?
    case Permit(c) =>
      && c in s.callers && s.callers[c].Waiting? && s.callers[c].flight !in s.cells
      && forall d :: d in s.callers && Inside(s.callers[d]) ==> s.callers[d].flight != s.callers[c].flight
    case LookAgain(c) => c in s.callers && s.callers[c].Initing?
    case Start(c) => c in s.callers && s.callers[c].Ready?
    case Say(call, said) => call < |s.calls| && s.calls[call].said.None?
    case Resume(c) =>
      c in s.callers && s.callers[c].Calling? && HasReturned(s, s.callers[c].call)
    case Remember(c, table) =>
      && c in s.callers && s.callers[c].Returned? && HasReturned(s, s.callers[c].call)
      && var pc := s.callers[c];
         var o := OutcomeOf(s, pc.host, pc.call);
         if o.Transient? then table == s.entries
         else Stored(s.entries, cfg.maxEntries, pc.host, Entry(o, s.now + Ttl(cfg, o), s.now), s.now, table)
    case SetCell(c) => c in s.callers && s.callers[c].Settled?
    case TakeCell(c) => c in s.callers && s.callers[c].Waiting? && s.callers[c].flight in s.cells
    case Leave(c) => c in s.callers && s.callers[c].Leaving?
    case Cancel(c) => c in s.callers && !s.callers[c].Done? && !s.callers[c].Cancelled?
    case Tick(time) => s.now <= time
  }

  /** The table without `flight`; a later flight for the same name stays in it. */
  function EndFlight(flights: map<string, nat>, host: string, flight: nat): map<string, nat> {
    if host in flights && flights[host] == flight then flights - {host} else flights
  }

  /** The guard of `pc` is dropped. */
  function DropGuard(s: State, pc: Pc): State
    requires Guarded(pc)
  {
    s.(flights := EndFlight(s.flights, pc.host, pc.flight), ended := s.ended + {pc.flight})
  }

  function Move(s: State, c: nat, pc: Pc): State {
    s.(callers := s.callers[c := pc])
  }

  /** Joins the flight of the caller's host, creating it if there is none. */
  function JoinFlight(s: State, c: nat, host: string): State {
    if host in s.flights then Move(s, c, Waiting(host, s.flights[host]))
    else Move(s.(flights := s.flights[host := |s.born|], born := s.born + [host]),
              c, Waiting(host, |s.born|))
  }

  /** The flight table in place: one flight per name, told apart by identity. */
  class FlightTable {
    var flights: map<string, nat>
    var born: seq<string>

    constructor ()
      ensures flights == map[] && born == []
    {
      flights, born := map[], [];
    }

    method Flight(host: string) returns (flight: nat)
      modifies this
      ensures host in flights && flights[host] == flight
      ensures host in old(flights) ==> flights == old(flights) && born == old(born)
      ensures host !in old(flights) ==>
                && flight == |old(born)| && born == old(born) + [host]
                && flights == old(flights)[host := flight]
    {
      if host !in flights {
        flights, born := flights[host := |born|], born + [host];
      }
      flight := flights[host];
    }

    method End(host: string, flight: nat)
      modifies this`flights
      ensures flights == EndFlight(old(flights), host, flight)
    {
      if host in flights && flights[host] == flight {
        flights := flights - {host};
      }
    }
  }

  ghost function Apply(cfg: Config, s: State, step: Step): State
    requires Enabled(cfg, s, step)
  {
    match step
    case Arrive(c, host) =>
      if Hit(s.entries, host, s.now)
      then Move(s.(entries := Touched(s.entries, host, s.now)), c, Done(host, None, s.entries[host].answer))
      else Move(s, c, Missed(host))
    case Join(c) => JoinFlight(s, c, s.callers[c].host)
    case Permit(c) => Move(s, c, Initing(s.callers[c].host, s.callers[c].flight))
    case LookAgain(c) =>
      var pc := s.callers[c];
      if Hit(s.entries, pc.host, s.now)
      then Move(s.(entries := Touched(s.entries, pc.host, s.now)), c,
                Settled(pc.host, pc.flight, s.entries[pc.host].answer))
      else Move(s, c, Ready(pc.host, pc.flight))
    case Start(c) =>
      var pc := s.callers[c];
      Move(s.(calls := s.calls + [Call(pc.host, c, None)]), c, Calling(pc.host, pc.flight, |s.calls|))
    case Say(call, said) => s.(calls := s.calls[call := s.calls[call].(said := Some(said))])
    case Resume(c) =>
      var pc := s.callers[c];
      Move(s, c, Returned(pc.host, pc.flight, pc.call))
    case Remember(c, table) =>
      var pc := s.callers[c];
      var o := OutcomeOf(s, pc.host, pc.call);
      var memories := if o.Transient? then s.memories else s.memories + [Memory(pc.call, s.now)];
      Move(s.(entries := table, memories := memories), c, Settled(pc.host, pc.flight, o))
    case SetCell(c) =>
      var pc := s.callers[c];
      Move(s.(cells := s.cells[pc.flight := pc.outcome]), c, Leaving(pc.host, pc.flight, pc.outcome))
    case TakeCell(c) =>
      var pc := s.callers[c];
      Move(s, c, Leaving(pc.host, pc.flight, s.cells[pc.flight]))
    case Leave(c) =>
      var pc := s.callers[c];
      Move(DropGuard(s, pc), c, Done(pc.host, Some(pc.flight), pc.outcome))
    case Cancel(c) =>
      var pc := s.callers[c];
      Move(if Guarded(pc) then DropGuard(s, pc) else s, c, Cancelled(pc.host))
    case Tick(time) => s.(now := time)
  }

  // ------------------------------------------------- the shape of every step

  /** The caller's control flow: how `c` may have got where it is in `s'`. */
  predicate PcNext(s: State, s': State, c: nat)
    requires c in s'.callers
  {
    var pc' := s'.callers[c];
    if c !in s.callers then pc'.Missed? || (pc'.Done? && pc'.joined.None?)
    else
      var pc := s.callers[c];
      match pc'
      case Missed(_) => false
      case Waiting(h, f) => pc == Missed(h)
      case Initing(h, f) => pc == Waiting(h, f) && f !in s.cells
      case Ready(h, f) => pc == Initing(h, f)
      case Calling(h, f, k) =>
        pc == Ready(h, f) && k == |s.calls| && s'.calls == s.calls + [Call(h, c, None)]
      case Returned(h, f, k) => pc == Calling(h, f, k) && HasReturned(s, k)
      case Settled(h, f, o) => pc == Initing(h, f) || (pc.Returned? && pc.host == h && pc.flight == f)
      case Leaving(h, f, o) =>
        (pc == Settled(h, f, o) && s'.cells == s.cells[f := o])
        || (pc == Waiting(h, f) && f in s.cells && s.cells[f] == o)
      case Done(h, f, o) => f.Some? && pc == Leaving(h, f.value, o)
      case Cancelled(h) => pc.host == h
  }

  predicate SameFlights(s: State, s': State) {
    s'.flights == s.flights && s'.born == s.born && s'.ended == s.ended
  }

  /** Calls keep their host and owner, and what they said. */
  ghost predicate CallsGrow(s: State, s': State) {
    && |s.calls| <= |s'.calls|
    && forall k :: 0 <= k < |s.calls| ==>
         && s'.calls[k].host == s.calls[k].host && s'.calls[k].owner == s.calls[k].owner
         && (s.calls[k].said.Some? ==> s'.calls[k] == s.calls[k])
  }

  /** A step moves at most its own caller, and only along the control flow. */
  lemma StepMovesCaller(cfg: Config, s: State, step: Step)
    requires Enabled(cfg, s, step)
    ensures var s' := Apply(cfg, s, step);
      && (step.Say? || step.Tick? ==> s'.callers == s.callers)
      && (!step.Say? && !step.Tick? ==>
            && step.c in s'.callers
            && s'.callers == s.callers[step.c := s'.callers[step.c]]
            && PcNext(s, s', step.c)
            && (s'.callers[step.c].Initing? ==> step.Permit?)
            && (s'.callers[step.c].Waiting? ==> step.Join?)
            && (s'.callers[step.c].Cancelled? <==> step.Cancel?))
  {
    hide Stored, Hit, Touched, OutcomeOf, EndFlight;
  }

  /** Which steps touch the flights, the cells and the calls. */
  lemma StepFrames(cfg: Config, s: State, step: Step)
    requires Enabled(cfg, s, step)
    ensures var s' := Apply(cfg, s, step);
      && (step.Join? || step.Leave? || step.Cancel? || SameFlights(s, s'))
      && (step.SetCell? || s'.cells == s.cells)
      && (step.Start? || step.Say? || s'.calls == s.calls)
      && (step.SetCell? ==> s.callers[step.c].Settled?)
      && s.now <= s'.now
  {
    hide Stored, Hit, Touched, OutcomeOf, EndFlight;
  }

  // ------------------------------------------- what every step keeps, always

  predicate GuardsOf(s: State, c: nat, flight: nat) {
    c in s.callers && Guarded(s.callers[c]) && s.callers[c].flight == flight
  }

  /** A flight in the table has a live guard, and none of its guards has ended. */
  ghost predicate NoOrphan(s: State) {
    forall h :: h in s.flights ==>
      && s.flights[h] < |s.born| && s.born[s.flights[h]] == h
      && s.flights[h] !in s.ended
      && exists c :: GuardsOf(s, c, s.flights[h])
  }

  ghost predicate GuardInv(s: State) {
    && NoOrphan(s)
    && (forall c :: c in s.callers && Guarded(s.callers[c]) ==>
          s.callers[c].flight < |s.born| && s.born[s.callers[c].flight] == s.callers[c].host)
    && (forall f :: f in s.ended ==> f < |s.born|)
  }

  lemma JoinKeepsGuardInv(s: State, c: nat)
    requires GuardInv(s) && c in s.callers && s.callers[c].Missed?
    ensures GuardInv(JoinFlight(s, c, s.callers[c].host))
  {
    var host, s' := s.callers[c].host, JoinFlight(s, c, s.callers[c].host);
    forall h | h in s'.flights ensures exists d :: GuardsOf(s', d, s'.flights[h]) {
      if h == host {
        assert GuardsOf(s', c, s'.flights[h]);
      } else {
        var d :| GuardsOf(s, d, s.flights[h]);
        assert GuardsOf(s', d, s.flights[h]);
      }
    }
  }

  lemma DropKeepsGuardInv(s: State, c: nat, pc: Pc)
    requires GuardInv(s) && c in s.callers && Guarded(s.callers[c]) && !Guarded(pc)
    ensures GuardInv(Move(DropGuard(s, s.callers[c]), c, pc))
  {
    var s' := Move(DropGuard(s, s.callers[c]), c, pc);
    forall h | h in s'.flights
      ensures s'.flights[h] !in s'.ended && exists d :: GuardsOf(s', d, s'.flights[h])
    {
      assert h in s.flights && s.flights[h] == s'.flights[h];
      var d :| GuardsOf(s, d, s.flights[h]);
      assert d != c;
      assert GuardsOf(s', d, s'.flights[h]);
    }
  }

  /** A step that leaves the flights alone and keeps its caller's guard. */
  lemma MoveKeepsGuardInv(s: State, s': State, c: nat)
    requires GuardInv(s) && SameFlights(s, s')
    requires c in s'.callers && s'.callers == s.callers[c := s'.callers[c]]
    requires PcNext(s, s', c) && !s'.callers[c].Waiting? && !s'.callers[c].Done?
    requires s'.callers[c].Cancelled? ==> !Guarded(s.callers[c])
    ensures GuardInv(s')
  {
    forall h | h in s'.flights ensures exists d :: GuardsOf(s', d, s'.flights[h]) {
      var d :| GuardsOf(s, d, s.flights[h]);
      assert GuardsOf(s', d, s'.flights[h]);
    }
  }

  lemma ArriveKeepsGuardInv(s: State, s': State, c: nat)
    requires GuardInv(s) && SameFlights(s, s') && c !in s.callers
    requires c in s'.callers && s'.callers == s.callers[c := s'.callers[c]] && !Guarded(s'.callers[c])
    ensures GuardInv(s')
  {
    forall h | h in s'.flights ensures exists d :: GuardsOf(s', d, s'.flights[h]) {
      var d :| GuardsOf(s, d, s.flights[h]);
      assert GuardsOf(s', d, s'.flights[h]);
    }
  }

  lemma SameCallersKeepGuardInv(s: State, s': State)
    requires GuardInv(s) && SameFlights(s, s') && s'.callers == s.callers
    ensures GuardInv(s')
  {
    forall h | h in s'.flights ensures exists d :: GuardsOf(s', d, s'.flights[h]) {
      var d :| GuardsOf(s, d, s.flights[h]);
      assert GuardsOf(s', d, s'.flights[h]);
    }
  }

  lemma StepKeepsGuardInv(cfg: Config, s: State, step: Step)
    requires GuardInv(s) && Enabled(cfg, s, step)
    ensures GuardInv(Apply(cfg, s, step))
  {
    hide GuardInv, Stored, Hit, Touched, OutcomeOf, EndFlight;
    var s' := Apply(cfg, s, step);
    if step.Join? {
      JoinKeepsGuardInv(s, step.c);
    } else if (step.Leave? || step.Cancel?) && Guarded(s.callers[step.c]) {
      DropKeepsGuardInv(s, step.c, s'.callers[step.c]);
    } else {
      OtherStepKeepsGuardInv(cfg, s, step);
    }
  }

  lemma OtherStepKeepsGuardInv(cfg: Config, s: State, step: Step)
    requires GuardInv(s) && Enabled(cfg, s, step) && !step.Join? && !step.Leave?
    requires step.Cancel? ==> !Guarded(s.callers[step.c])
    ensures GuardInv(Apply(cfg, s, step))
  {
    hide GuardInv;
    StepMovesCaller(cfg, s, step);
    StepFrames(cfg, s, step);
    var s' := Apply(cfg, s, step);
    assert step.Cancel? ==> SameFlights(s, s');
    assert step.Cancel? ==> step.c in s.callers;
    hide Enabled, Apply;
    if step.Say? || step.Tick? {
      SameCallersKeepGuardInv(s, s');
    } else if step.c !in s.callers {
      ArriveKeepsGuardInv(s, s', step.c);
    } else {
      MoveKeepsGuardInv(s, s', step.c);
    }
  }

  predicate InsideAt(s: State, c: nat) {
    c in s.callers && Inside(s.callers[c])
  }

  /** One initializer at a time per flight, and none once its cell is set. */
  ghost predicate PermitInv(s: State) {
    && (forall c :: InsideAt(s, c) ==> s.callers[c].flight !in s.cells)
    && (forall c, d :: InsideAt(s, c) && InsideAt(s, d) && s.callers[c].flight == s.callers[d].flight
          ==> c == d)
  }

  lemma StepKeepsPermitInv(cfg: Config, s: State, step: Step)
    requires PermitInv(s) && Enabled(cfg, s, step)
    ensures PermitInv(Apply(cfg, s, step))
  {
    StepMovesCaller(cfg, s, step);
    StepFrames(cfg, s, step);
    var s' := Apply(cfg, s, step);
    if step.Permit? {
      hide Apply;
      assert forall c :: InsideAt(s', c) && c != step.c ==> InsideAt(s, c);
    } else {
      hide Enabled, Apply;
      assert forall c :: InsideAt(s', c) ==> InsideAt(s, c) && s'.callers[c].flight == s.callers[c].flight;
      assert step.SetCell? ==> InsideAt(s, step.c);
    }
  }

  /** Everyone who left a flight left with what its cell holds. */
  ghost predicate OutcomeInv(s: State) {
    forall c :: c in s.callers ==> OutcomeOk(s.cells, s.callers[c])
  }

  predicate OutcomeOk(cells: map<nat, Outcome>, pc: Pc) {
    && (pc.Leaving? ==> pc.flight in cells && cells[pc.flight] == pc.outcome)
    && (pc.Done? && pc.joined.Some? ==>
          pc.joined.value in cells && cells[pc.joined.value] == pc.outcome)
  }

  lemma StepKeepsOutcomeInv(cfg: Config, s: State, step: Step)
    requires PermitInv(s) && OutcomeInv(s) && Enabled(cfg, s, step)
    ensures OutcomeInv(Apply(cfg, s, step))
  {
    StepMovesCaller(cfg, s, step);
    StepFrames(cfg, s, step);
    assert step.SetCell? ==> InsideAt(s, step.c) && Apply(cfg, s, step).callers[step.c].Leaving?;
    hide Enabled, Apply;
  }

  // ------------------------------------------------ agreeing with the resolver

  /** `e` is what the resolver said about `host` in some call whose answer was
      stored no later than now, with the lifetime that answer deserves. */
  ghost predicate Backed(cfg: Config, s: State, host: string, e: Entry) {
    && !e.answer.Transient?
    && exists i :: 0 <= i < |s.memories| && BackedBy(cfg, s, s.memories[i], host, e)
  }

  predicate BackedBy(cfg: Config, s: State, m: Memory, host: string, e: Entry) {
    && HasReturned(s, m.call) && s.calls[m.call].host == host
    && e.answer == OutcomeOf(s, host, m.call)
    && m.at <= s.now
    && e.expiresAt == m.at + Ttl(cfg, e.answer)
  }

  ghost predicate TableInv(cfg: Config, s: State) {
    && |s.entries| <= cfg.maxEntries
    && (forall h :: h in s.entries ==> Backed(cfg, s, h, s.entries[h]))
  }

  ghost predicate CallInv(s: State) {
    forall c :: c in s.callers ==>
      && (s.callers[c].Calling? || s.callers[c].Returned? ==>
            s.callers[c].call < |s.calls| && s.calls[s.callers[c].call].host == s.callers[c].host)
      && (s.callers[c].Returned? ==> HasReturned(s, s.callers[c].call))
  }

  lemma StepGrowsCalls(cfg: Config, s: State, step: Step)
    requires Enabled(cfg, s, step)
    ensures CallsGrow(s, Apply(cfg, s, step))
  {
    StepMovesCaller(cfg, s, step);
    StepFrames(cfg, s, step);
    if !step.Start? && !step.Say? {
      hide Enabled, Apply;
    }
  }

  lemma StepKeepsCallInv(cfg: Config, s: State, step: Step)
    requires CallInv(s) && Enabled(cfg, s, step)
    ensures CallInv(Apply(cfg, s, step))
  {
    StepMovesCaller(cfg, s, step);
    StepFrames(cfg, s, step);
    StepGrowsCalls(cfg, s, step);
    hide Enabled, Apply;
  }

  /** Memories are never lost, calls never change what they said, and time goes forward. */
  ghost predicate Extends(s: State, s': State) {
    && s.now <= s'.now
    && |s.memories| <= |s'.memories| && s'.memories[..|s.memories|] == s.memories
    && CallsGrow(s, s')
  }

  lemma BackedExtends(cfg: Config, s: State, s': State, host: string, e: Entry, e': Entry)
    requires Backed(cfg, s, host, e) && Extends(s, s')
    requires e'.answer == e.answer && e'.expiresAt == e.expiresAt
    ensures Backed(cfg, s', host, e')
  {
    var i :| 0 <= i < |s.memories| && BackedBy(cfg, s, s.memories[i], host, e);
    assert s'.memories[i] == s'.memories[..|s.memories|][i];
    assert BackedBy(cfg, s', s'.memories[i], host, e');
  }

  lemma StepExtends(cfg: Config, s: State, step: Step)
    requires Enabled(cfg, s, step)
    ensures Extends(s, Apply(cfg, s, step))
  {
    StepGrowsCalls(cfg, s, step);
    hide Stored, Hit, Touched, OutcomeOf, EndFlight, CallsGrow;
  }

  /** A stored answer is backed by the call it came from. */
  lemma StoredIsBacked(cfg: Config, s: State, c: nat, table: Table)
    requires CallInv(s) && Enabled(cfg, s, Remember(c, table))
    requires !OutcomeOf(s, s.callers[c].host, s.callers[c].call).Transient?
    ensures var o := OutcomeOf(s, s.callers[c].host, s.callers[c].call);
      Backed(cfg, Apply(cfg, s, Remember(c, table)), s.callers[c].host,
             Entry(o, s.now + Ttl(cfg, o), s.now))
  {
    hide Stored, Conclude;
    var s', pc := Apply(cfg, s, Remember(c, table)), s.callers[c];
    var o := OutcomeOf(s, pc.host, pc.call);
    assert s'.memories[|s.memories|] == Memory(pc.call, s.now);
    assert BackedBy(cfg, s', s'.memories[|s.memories|], pc.host, Entry(o, s.now + Ttl(cfg, o), s.now));
  }

  lemma RememberKeepsTableInv(cfg: Config, s: State, c: nat, table: Table)
    requires 1 <= cfg.maxEntries && TableInv(cfg, s) && CallInv(s)
    requires Enabled(cfg, s, Remember(c, table))
    ensures TableInv(cfg, Apply(cfg, s, Remember(c, table)))
  {
    var s', pc := Apply(cfg, s, Remember(c, table)), s.callers[c];
    var o := OutcomeOf(s, pc.host, pc.call);
    StepExtends(cfg, s, Remember(c, table));
    if !o.Transient? {
      StoreKeepsOthers(s.entries, cfg.maxEntries, pc.host, Entry(o, s.now + Ttl(cfg, o), s.now), s.now, table);
      StoredIsBacked(cfg, s, c, table);
    }
    assert s'.entries == table;
    hide Stored, Enabled, Apply, Backed, Extends, CallInv;
    forall h | h in table && (o.Transient? || h != pc.host) ensures Backed(cfg, s', h, table[h]) {
      BackedExtends(cfg, s, s', h, s.entries[h], table[h]);
    }
  }

  lemma StepKeepsTableInv(cfg: Config, s: State, step: Step)
    requires 1 <= cfg.maxEntries && TableInv(cfg, s) && CallInv(s) && Enabled(cfg, s, step)
    ensures TableInv(cfg, Apply(cfg, s, step))
  {
    if step.Remember? {
      RememberKeepsTableInv(cfg, s, step.c, step.table);
    } else {
      StepExtends(cfg, s, step);
      OnlyRememberStores(cfg, s, step);
      hide Enabled, Apply, Backed;
      var s' := Apply(cfg, s, step);
      forall h | h in s'.entries ensures Backed(cfg, s', h, s'.entries[h]) {
        BackedExtends(cfg, s, s', h, s.entries[h], s'.entries[h]);
      }
    }
  }

  /** Only a lookup or a store touches the table. */
  lemma StepTable(cfg: Config, s: State, step: Step)
    requires Enabled(cfg, s, step) && !step.Remember?
    ensures var t' := Apply(cfg, s, step).entries;
      t' == s.entries || exists h :: h in s.entries && t' == Touched(s.entries, h, s.now)
  {
    hide Stored, OutcomeOf, EndFlight, Touched;
  }

  /** Every other step leaves each answer and its expiry as they were. */
  lemma OnlyRememberStores(cfg: Config, s: State, step: Step)
    requires Enabled(cfg, s, step) && !step.Remember?
    ensures var t, t' := s.entries, Apply(cfg, s, step).entries;
      && t'.Keys == t.Keys && |t'| == |t|
      && forall h :: h in t ==> t'[h].answer == t[h].answer && t'[h].expiresAt == t[h].expiresAt
  {
    StepTable(cfg, s, step);
    hide Apply, Enabled;
    var t' := Apply(cfg, s, step).entries;
    assert t'.Keys == s.entries.Keys;
  }
}
