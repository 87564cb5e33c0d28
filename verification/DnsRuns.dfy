/** Whole runs of the resolution protocol: any number of callers, in any
    interleaving, any of them cancelled at any point. */
module DnsRuns {
  import opened DnsTable
  import opened DnsFlight

  /** `steps`, taken one after the other from `states[0]`, lead through `states`. */
  ghost predicate IsPath(cfg: Config, states: seq<State>, steps: seq<Step>) {
    && |states| == |steps| + 1
    && forall i :: 0 <= i < |steps| ==>
         Enabled(cfg, states[i], steps[i]) && states[i + 1] == Apply(cfg, states[i], steps[i])
  }

  ghost predicate IsRun(cfg: Config, states: seq<State>, steps: seq<Step>) {
    IsPath(cfg, states, steps) && states[0] == Initial
  }

  function Final(states: seq<State>): State
    requires states != []
  {
    states[|states| - 1]
  }

  lemma RunPrefix(cfg: Config, states: seq<State>, steps: seq<Step>)
    requires IsRun(cfg, states, steps) && steps != []
    ensures IsRun(cfg, states[..|steps|], steps[..|steps| - 1])
    ensures Enabled(cfg, states[|steps| - 1], steps[|steps| - 1])
    ensures Final(states) == Apply(cfg, states[|steps| - 1], steps[|steps| - 1])
  {
  }

  ghost predicate Inv(cfg: Config, s: State) {
    GuardInv(s) && PermitInv(s) && OutcomeInv(s) && CallInv(s) && TableInv(cfg, s)
  }

  lemma {:induction false} RunKeepsInv(cfg: Config, states: seq<State>, steps: seq<Step>)
    requires 1 <= cfg.maxEntries && IsRun(cfg, states, steps)
    ensures Inv(cfg, Final(states))
  {
    hide GuardInv, PermitInv, OutcomeInv, CallInv, TableInv, Apply, Enabled;
    if steps == [] {
      InitialInv(cfg);
    } else {
      RunPrefix(cfg, states, steps);
      var s, step := states[|steps| - 1], steps[|steps| - 1];
      RunKeepsInv(cfg, states[..|steps|], steps[..|steps| - 1]);
      StepKeepsGuardInv(cfg, s, step);
      StepKeepsPermitInv(cfg, s, step);
      StepKeepsOutcomeInv(cfg, s, step);
      StepKeepsCallInv(cfg, s, step);
      StepKeepsTableInv(cfg, s, step);
    }
  }

  lemma InitialInv(cfg: Config)
    ensures Inv(cfg, Initial)
  {
  }

  /** In every run, cancellations included, a flight is in the table only while
      it has a guard and none of its guards has ended; so once every caller is
      over nothing is left behind. */
  lemma NoFlightLeftBehind(cfg: Config, states: seq<State>, steps: seq<Step>)
    requires 1 <= cfg.maxEntries && IsRun(cfg, states, steps)
    ensures NoOrphan(Final(states))
    ensures (forall c :: c in Final(states).callers ==> !Guarded(Final(states).callers[c]))
            ==> Final(states).flights == map[]
  {
    RunKeepsInv(cfg, states, steps);
    var s := Final(states);
    if forall c :: c in s.callers ==> !Guarded(s.callers[c]) {
      assert forall c, f :: !GuardsOf(s, c, f);
      assert s.flights.Keys == {};
    }
  }

  /** A guard that ends removes no flight but its own: a newer flight for the
      same name stays. */
  lemma OldGuardSparesNewFlight(cfg: Config, s: State, step: Step, h: string)
    requires GuardInv(s) && Enabled(cfg, s, step) && h in s.flights
    requires (step.Leave? || step.Cancel?) && Guarded(s.callers[step.c])
    ensures h in Apply(cfg, s, step).flights <==> s.flights[h] != s.callers[step.c].flight
    ensures s.flights[h] != s.callers[step.c].flight ==> Apply(cfg, s, step).flights[h] == s.flights[h]
  {
  }

  /** Every caller that joined a flight and finished got the same outcome. */
  lemma JoinedShareOutcome(cfg: Config, states: seq<State>, steps: seq<Step>, c: nat, d: nat)
    requires 1 <= cfg.maxEntries && IsRun(cfg, states, steps)
    requires var s := Final(states);
      && c in s.callers && d in s.callers && s.callers[c].Done? && s.callers[d].Done?
      && s.callers[c].joined.Some? && s.callers[c].joined == s.callers[d].joined
    ensures Final(states).callers[c].outcome == Final(states).callers[d].outcome
  {
    RunKeepsInv(cfg, states, steps);
    var s := Final(states);
    assert OutcomeOk(s.cells, s.callers[c]) && OutcomeOk(s.cells, s.callers[d]);
  }

  /** Call `k` was about `host`, and what it said makes `o` the outcome. */
  predicate SaidBy(s: State, k: nat, host: string, o: Outcome) {
    && k < |s.calls| && s.calls[k].host == host && s.calls[k].said.Some?
    && match s.calls[k].said.value
       case Addresses(addrs) =>
         if addrs == [] then o == NotFound(host + " does not exist") else o == Found(addrs)
       case NoSuchName(why) => o == NotFound(why)
       case CouldNotAnswer(why) => o == Transient(why)
       case DidNotRun(why) => o == Transient("the resolver did not run: " + why)
  }

  /** Whatever the table says at any moment is what the resolver said about
      that very name, in a call whose answer was stored less than the positive
      TTL ago, or the negative TTL if there is no such name. A failure to
      answer is never in the table, and the table is within its bound. */
  lemma HitsAgreeWithResolver(cfg: Config, states: seq<State>, steps: seq<Step>, host: string)
    requires 1 <= cfg.maxEntries && IsRun(cfg, states, steps)
    ensures |Final(states).entries| <= cfg.maxEntries
    ensures var s := Final(states);
      Hit(s.entries, host, s.now) ==>
        var o := s.entries[host].answer;
        && !o.Transient?
        && exists i :: 0 <= i < |s.memories| && SaidBy(s, s.memories[i].call, host, o)
             && s.memories[i].at <= s.now
             && (o.Found? ==> s.now < s.memories[i].at + cfg.positiveTtl)
             && (o.NotFound? ==> s.now < s.memories[i].at + cfg.negativeTtl)
  {
    RunKeepsInv(cfg, states, steps);
    var s := Final(states);
    if Hit(s.entries, host, s.now) {
      assert Backed(cfg, s, host, s.entries[host]);
      var i :| 0 <= i < |s.memories| && BackedBy(cfg, s, s.memories[i], host, s.entries[host]);
      assert SaidBy(s, s.memories[i].call, host, s.entries[host].answer);
    }
  }

  /** Some call about `host` said `o`. */
  ghost predicate WasSaid(s: State, host: string, o: Outcome) {
    exists k :: SaidBy(s, k, host, o)
  }

  predicate Concluded(pc: Pc) {
    pc.Settled? || pc.Leaving? || pc.Done?
  }

  /** Every outcome a caller or a cell holds was said by the resolver about that name. */
  ghost predicate Truthful(s: State) {
    && (forall c :: c in s.callers && Concluded(s.callers[c]) ==>
          WasSaid(s, s.callers[c].host, s.callers[c].outcome))
    && (forall f :: f in s.cells ==> f < |s.born| && WasSaid(s, s.born[f], s.cells[f]))
  }

  lemma SaidPersists(s: State, s': State, host: string, o: Outcome)
    requires WasSaid(s, host, o) && CallsGrow(s, s')
    ensures WasSaid(s', host, o)
  {
    var k :| SaidBy(s, k, host, o);
    assert SaidBy(s', k, host, o);
  }

  lemma TableSaid(cfg: Config, s: State, host: string)
    requires TableInv(cfg, s) && host in s.entries
    ensures WasSaid(s, host, s.entries[host].answer)
  {
    assert Backed(cfg, s, host, s.entries[host]);
    var i :| 0 <= i < |s.memories| && BackedBy(cfg, s, s.memories[i], host, s.entries[host]);
    assert SaidBy(s, s.memories[i].call, host, s.entries[host].answer);
  }

  /** The outcome a step gives its caller is one that was said before it. */
  lemma NewOutcomeWasSaid(cfg: Config, s: State, step: Step)
    requires GuardInv(s) && CallInv(s) && TableInv(cfg, s) && Truthful(s) && Enabled(cfg, s, step)
    requires !step.Say? && !step.Tick? && Concluded(Apply(cfg, s, step).callers[step.c])
    ensures WasSaid(s, Apply(cfg, s, step).callers[step.c].host, Apply(cfg, s, step).callers[step.c].outcome)
  {
    hide GuardInv, TableInv, WasSaid;
    match step
    case Arrive(c, host) => TableSaid(cfg, s, host);
    case LookAgain(c) => TableSaid(cfg, s, s.callers[c].host);
    case Remember(c, _) => ReturnedSaid(s, c);
    case SetCell(c) =>
    case TakeCell(c) => GuardedHost(s, c);
    case Leave(c) =>
  }

  lemma ReturnedSaid(s: State, c: nat)
    requires CallInv(s) && c in s.callers && s.callers[c].Returned? && HasReturned(s, s.callers[c].call)
    ensures WasSaid(s, s.callers[c].host, OutcomeOf(s, s.callers[c].host, s.callers[c].call))
  {
    assert SaidBy(s, s.callers[c].call, s.callers[c].host, OutcomeOf(s, s.callers[c].host, s.callers[c].call));
  }

  lemma GuardedHost(s: State, c: nat)
    requires GuardInv(s) && c in s.callers && Guarded(s.callers[c])
    ensures s.callers[c].flight < |s.born| && s.born[s.callers[c].flight] == s.callers[c].host
  {
  }

  lemma StepKeepsTruthful(cfg: Config, s: State, step: Step)
    requires GuardInv(s) && CallInv(s) && TableInv(cfg, s) && Truthful(s) && Enabled(cfg, s, step)
    ensures Truthful(Apply(cfg, s, step))
  {
    hide Apply, Enabled, GuardInv, CallInv, TableInv, CallsGrow, WasSaid, PcNext;
    var s' := Apply(cfg, s, step);
    StepGrowsCalls(cfg, s, step);
    StepMovesCaller(cfg, s, step);
    CellsStayBorn(cfg, s, step);
    forall c | c in s'.callers && Concluded(s'.callers[c])
      ensures WasSaid(s', s'.callers[c].host, s'.callers[c].outcome)
    {
      if !step.Say? && !step.Tick? && c == step.c {
        NewOutcomeWasSaid(cfg, s, step);
      }
      SaidPersists(s, s', s'.callers[c].host, s'.callers[c].outcome);
    }
    forall f | f in s'.cells ensures f < |s'.born| && WasSaid(s', s'.born[f], s'.cells[f]) {
      SaidPersists(s, s', s'.born[f], s'.cells[f]);
    }
  }

  /** A cell, once set, keeps its flight's name; a new one holds its setter's outcome. */
  lemma CellsStayBorn(cfg: Config, s: State, step: Step)
    requires GuardInv(s) && Truthful(s) && Enabled(cfg, s, step)
    ensures var s' := Apply(cfg, s, step);
      forall f :: f in s'.cells ==>
        f < |s'.born| && WasSaid(s, s'.born[f], s'.cells[f])
  {
    hide WasSaid, Stored, Hit, Touched, OutcomeOf, EndFlight, NoOrphan;
    if step.SetCell? {
      GuardedHost(s, step.c);
    }
  }

  lemma {:induction false} RunIsTruthful(cfg: Config, states: seq<State>, steps: seq<Step>)
    requires 1 <= cfg.maxEntries && IsRun(cfg, states, steps)
    ensures Truthful(Final(states))
  {
    hide GuardInv, PermitInv, OutcomeInv, CallInv, TableInv, Truthful, Apply, Enabled;
    if steps == [] {
      InitialTruthful();
    } else {
      RunPrefix(cfg, states, steps);
      RunIsTruthful(cfg, states[..|steps|], steps[..|steps| - 1]);
      RunKeepsInv(cfg, states[..|steps|], steps[..|steps| - 1]);
      StepKeepsTruthful(cfg, states[|steps| - 1], steps[|steps| - 1]);
    }
  }

  lemma InitialTruthful()
    ensures Truthful(Initial)
  {
  }

  /** Whatever a caller is told, from the table or from a flight, is what the
      resolver said about that very name in some call of the run. */
  lemma CallersAreToldWhatWasSaid(cfg: Config, states: seq<State>, steps: seq<Step>, c: nat)
    requires 1 <= cfg.maxEntries && IsRun(cfg, states, steps)
    requires c in Final(states).callers && Final(states).callers[c].Done?
    ensures var pc := Final(states).callers[c]; WasSaid(Final(states), pc.host, pc.outcome)
  {
    RunIsTruthful(cfg, states, steps);
  }
}
