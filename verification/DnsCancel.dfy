/** When a cancelled caller costs the protocol its bound. A cancelled caller's
    guard forgets the flight for everyone, and the resolver call it was waiting
    for runs on. Here: which cancellations do no harm, and what holds in every
    run that has no others. */
module DnsCancel {
  import opened DnsTable
  import opened DnsFlight
  import opened DnsRuns

  /** What a flight may still lead to: a resolver call that has not spoken, or
      an answer put into the table. */
  datatype Aim = ACall | AStore

  /** An outcome that, once stored, is a hit for a while. */
  predicate Lasting(cfg: Config, o: Outcome) {
    !o.Transient? && 0 < Ttl(cfg, o)
  }

  predicate Possible(cfg: Config, aim: Aim) {
    aim.ACall? || 0 < cfg.positiveTtl || 0 < cfg.negativeTtl
  }

  /** A caller at `pc`, running its flight's initializer, may still get there. */
  predicate May(cfg: Config, aim: Aim, s: State, pc: Pc) {
    if (pc.Calling? || pc.Returned?) && HasReturned(s, pc.call)
    then aim.AStore? && Lasting(cfg, OutcomeOf(s, pc.host, pc.call))
    else pc.Initing? || pc.Ready? || pc.Calling?
  }

  predicate InsideFlight(s: State, c: nat, flight: nat) {
    InsideAt(s, c) && s.callers[c].flight == flight
  }

  /** The flight is undecided, and whoever runs its initializer may still get there. */
  ghost predicate Open(cfg: Config, aim: Aim, s: State, flight: nat) {
    && Possible(cfg, aim) && flight !in s.cells
    && forall d :: InsideFlight(s, d, flight) ==> May(cfg, aim, s, s.callers[d])
  }

  /** Without `c` the flight still has a guard, and is open. */
  ghost predicate OpenWithout(cfg: Config, aim: Aim, s: State, c: nat, flight: nat) {
    && Possible(cfg, aim) && flight !in s.cells
    && (exists d :: d != c && GuardsOf(s, d, flight))
    && (forall d :: d != c && InsideFlight(s, d, flight) ==> May(cfg, aim, s, s.callers[d]))
  }

  predicate AwaitsResolver(s: State, c: nat) {
    c in s.callers && s.callers[c].Calling? && !HasReturned(s, s.callers[c].call)
  }

  /** Cancelling `c` leaves behind a resolver call that runs, or a flight that
      may start one, with nothing in the table of flights to say so. */
  ghost predicate Doubles(cfg: Config, s: State, c: nat) {
    && c in s.callers && Guarded(s.callers[c])
    && (AwaitsResolver(s, c) || OpenWithout(cfg, ACall, s, c, s.callers[c].flight))
  }

  /** Cancelling `c` leaves behind a flight that may store an answer, with
      nothing in the table of flights to say so. */
  ghost predicate Restarts(cfg: Config, s: State, c: nat) {
    && c in s.callers && Guarded(s.callers[c])
    && OpenWithout(cfg, AStore, s, c, s.callers[c].flight)
  }

  ghost predicate NoneDoubles(cfg: Config, states: seq<State>, steps: seq<Step>)
    requires IsPath(cfg, states, steps)
  {
    forall i :: 0 <= i < |steps| && steps[i].Cancel? ==> !Doubles(cfg, states[i], steps[i].c)
  }

  ghost predicate NoneRestarts(cfg: Config, states: seq<State>, steps: seq<Step>)
    requires IsPath(cfg, states, steps)
  {
    forall i :: 0 <= i < |steps| && steps[i].Cancel? ==> !Restarts(cfg, states[i], steps[i].c)
  }

  // --------------------------------------------- open flights are in the table

  /** A guard whose flight is open guards the flight in the table. */
  ghost predicate Attached(cfg: Config, aim: Aim, s: State) {
    forall c :: c in s.callers && Guarded(s.callers[c]) && Open(cfg, aim, s, s.callers[c].flight) ==>
      s.callers[c].host in s.flights && s.flights[s.callers[c].host] == s.callers[c].flight
  }

  /** Where a caller was, if it may get there now, it might before. */
  lemma MayShrinks(cfg: Config, aim: Aim, s: State, s': State, c: nat)
    requires CallInv(s) && CallsGrow(s, s') && Possible(cfg, aim) && InsideAt(s, c) && c in s'.callers
    requires s'.callers[c] == s.callers[c] || (PcNext(s, s', c) && !s'.callers[c].Leaving?)
    requires Inside(s'.callers[c]) && May(cfg, aim, s', s'.callers[c])
    ensures May(cfg, aim, s, s.callers[c])
  {
  }

  /** Only a cancellation opens a flight again. */
  lemma OpenShrinks(cfg: Config, aim: Aim, s: State, step: Step, flight: nat)
    requires CallInv(s) && Enabled(cfg, s, step) && !step.Cancel?
    requires Open(cfg, aim, Apply(cfg, s, step), flight)
    ensures Open(cfg, aim, s, flight)
  {
    hide Enabled, Apply, CallsGrow, CallInv, PcNext, May;
    var s' := Apply(cfg, s, step);
    StepMovesCaller(cfg, s, step);
    StepGrowsCalls(cfg, s, step);
    CellsGrow(cfg, s, step);
    forall d | InsideFlight(s, d, flight) ensures May(cfg, aim, s, s.callers[d]) {
      StaysInside(cfg, s, step, d);
      MayShrinks(cfg, aim, s, s', d);
    }
  }

  /** A caller stays inside its flight until the cell is set, or it is cancelled. */
  lemma StaysInside(cfg: Config, s: State, step: Step, d: nat)
    requires Enabled(cfg, s, step) && !step.Cancel? && InsideAt(s, d)
    requires s.callers[d].flight !in Apply(cfg, s, step).cells
    ensures var s' := Apply(cfg, s, step);
      && InsideFlight(s', d, s.callers[d].flight)
      && (s'.callers[d] == s.callers[d] || PcNext(s, s', d))
  {
    hide Enabled, Apply;
    StepMovesCaller(cfg, s, step);
  }

  lemma CellsGrow(cfg: Config, s: State, step: Step)
    requires Enabled(cfg, s, step)
    ensures forall f :: f in s.cells ==> f in Apply(cfg, s, step).cells
  {
    StepFrames(cfg, s, step);
    if !step.SetCell? {
      hide Enabled, Apply;
    }
  }

  lemma StepKeepsAttached(cfg: Config, aim: Aim, s: State, step: Step)
    requires OutcomeInv(s) && CallInv(s) && Attached(cfg, aim, s) && Enabled(cfg, s, step)
    requires step.Cancel? && Guarded(s.callers[step.c]) ==>
               !OpenWithout(cfg, aim, s, step.c, s.callers[step.c].flight)
    ensures Attached(cfg, aim, Apply(cfg, s, step))
  {
    hide Open, OutcomeInv, CallInv, OpenWithout, Stored, Hit, Touched, OutcomeOf;
    var s' := Apply(cfg, s, step);
    forall c | c in s'.callers && Guarded(s'.callers[c]) && Open(cfg, aim, s', s'.callers[c].flight)
      ensures s'.callers[c].host in s'.flights && s'.flights[s'.callers[c].host] == s'.callers[c].flight
    {
      if step.Cancel? {
        CancelKeepsAttached(cfg, aim, s, step.c, c);
      } else {
        OpenShrinks(cfg, aim, s, step, s'.callers[c].flight);
        OpenStaysAttached(cfg, aim, s, step, c);
      }
    }
  }

  lemma CancelKeepsAttached(cfg: Config, aim: Aim, s: State, c: nat, d: nat)
    requires Attached(cfg, aim, s) && Enabled(cfg, s, Cancel(c))
    requires Guarded(s.callers[c]) ==> !OpenWithout(cfg, aim, s, c, s.callers[c].flight)
    requires var s' := Apply(cfg, s, Cancel(c));
      d in s'.callers && Guarded(s'.callers[d]) && Open(cfg, aim, s', s'.callers[d].flight)
    ensures var s' := Apply(cfg, s, Cancel(c));
      s'.callers[d].host in s'.flights && s'.flights[s'.callers[d].host] == s'.callers[d].flight
  {
    var s', f := Apply(cfg, s, Cancel(c)), s.callers[d].flight;
    assert d != c && s'.callers[d] == s.callers[d];
    assert forall e :: e != c && InsideFlight(s, e, f) ==> InsideFlight(s', e, f) && s'.callers[e] == s.callers[e];
    assert GuardsOf(s, d, f);
    hide May;
    assert forall e :: e != c && InsideFlight(s, e, f) ==> May(cfg, aim, s', s'.callers[e]);
    assert forall e :: e != c && InsideFlight(s, e, f) ==> May(cfg, aim, s, s.callers[e]) by {
      SameCallsSameMay(cfg, aim, s, s');
    }
    assert !(Guarded(s.callers[c]) && s.callers[c].flight == f);
    assert !InsideFlight(s, c, f);
    assert Open(cfg, aim, s, f);
  }

  lemma SameCallsSameMay(cfg: Config, aim: Aim, s: State, s': State)
    requires s'.calls == s.calls
    ensures forall pc :: May(cfg, aim, s', pc) == May(cfg, aim, s, pc)
  {
  }

  /** A guard of an open flight, attached before a step, is attached after it. */
  lemma OpenStaysAttached(cfg: Config, aim: Aim, s: State, step: Step, c: nat)
    requires OutcomeInv(s) && Attached(cfg, aim, s) && Enabled(cfg, s, step) && !step.Cancel?
    requires var s' := Apply(cfg, s, step);
      c in s'.callers && Guarded(s'.callers[c]) && Open(cfg, aim, s, s'.callers[c].flight)
    ensures var s' := Apply(cfg, s, step);
      s'.callers[c].host in s'.flights && s'.flights[s'.callers[c].host] == s'.callers[c].flight
  {
    hide Stored, Hit, Touched, OutcomeOf, May;
    if step.Join? {
    } else if step.Leave? {
      assert OutcomeOk(s.cells, s.callers[step.c]);
    } else {
      hide Enabled, Apply, OutcomeInv, EndFlight;
      StepMovesCaller(cfg, s, step);
      StepFrames(cfg, s, step);
    }
  }

  /** Two callers inside open flights for the same name are one caller. */
  lemma InsideIsUnique(cfg: Config, aim: Aim, s: State, c: nat, d: nat)
    requires PermitInv(s) && Attached(cfg, aim, s) && Possible(cfg, aim) && InsideAt(s, c) && InsideAt(s, d)
    requires May(cfg, aim, s, s.callers[c]) && May(cfg, aim, s, s.callers[d])
    ensures s.callers[c].host == s.callers[d].host ==> c == d
  {
    hide May;
    assert Open(cfg, aim, s, s.callers[c].flight) && Open(cfg, aim, s, s.callers[d].flight);
  }

  // ------------------------------------------------------ one call at a time

  /** A call that still runs has its caller waiting for it. */
  ghost predicate Owned(s: State) {
    forall k :: 0 <= k < |s.calls| && s.calls[k].said.None? ==>
      && s.calls[k].owner in s.callers
      && s.callers[s.calls[k].owner].Calling?
      && s.callers[s.calls[k].owner].call == k
      && s.callers[s.calls[k].owner].host == s.calls[k].host
  }

  lemma StepKeepsOwned(cfg: Config, s: State, step: Step)
    requires Owned(s) && Enabled(cfg, s, step) && (step.Cancel? ==> !AwaitsResolver(s, step.c))
    ensures Owned(Apply(cfg, s, step))
  {
    StepMovesCaller(cfg, s, step);
    StepFrames(cfg, s, step);
    if step.Say? {
      hide Enabled;
    } else {
      assert step.Start? ==> Apply(cfg, s, step).callers[step.c].Calling?;
      hide Enabled, Apply;
    }
  }

  /** What rules out two calls for one name. */
  ghost predicate SingleInv(cfg: Config, s: State) {
    Attached(cfg, ACall, s) && Owned(s)
  }

  lemma StepKeepsSingle(cfg: Config, s: State, step: Step)
    requires OutcomeInv(s) && CallInv(s) && SingleInv(cfg, s) && Enabled(cfg, s, step)
    requires step.Cancel? ==> !Doubles(cfg, s, step.c)
    ensures SingleInv(cfg, Apply(cfg, s, step))
  {
    hide Attached, Owned, Apply, OutcomeInv, CallInv, OpenWithout;
    StepKeepsAttached(cfg, ACall, s, step);
    StepKeepsOwned(cfg, s, step);
  }

  /** Two resolver calls for `host` run at once. */
  ghost predicate TwoCalls(s: State, host: string) {
    exists i, j :: 0 <= i < j < |s.calls| && Runs(s, i, host) && Runs(s, j, host)
  }

  predicate Runs(s: State, call: nat, host: string) {
    call < |s.calls| && s.calls[call].host == host && s.calls[call].said.None?
  }

  lemma RunningCallIsUnique(cfg: Config, s: State, host: string, i: nat, j: nat)
    requires PermitInv(s) && SingleInv(cfg, s) && Runs(s, i, host) && Runs(s, j, host)
    ensures i == j
  {
    InsideIsUnique(cfg, ACall, s, s.calls[i].owner, s.calls[j].owner);
  }

  lemma SingleHasNoTwo(cfg: Config, s: State, host: string)
    requires PermitInv(s) && SingleInv(cfg, s)
    ensures !TwoCalls(s, host)
  {
    hide PermitInv, SingleInv, Runs;
    forall i: nat, j: nat | Runs(s, i, host) && Runs(s, j, host) ensures i == j {
      RunningCallIsUnique(cfg, s, host, i, j);
    }
  }

  lemma {:induction false} RunKeepsSingle(cfg: Config, states: seq<State>, steps: seq<Step>)
    requires 1 <= cfg.maxEntries && IsRun(cfg, states, steps) && NoneDoubles(cfg, states, steps)
    ensures SingleInv(cfg, Final(states))
  {
    hide GuardInv, PermitInv, OutcomeInv, CallInv, TableInv, SingleInv, Doubles, Apply, Enabled;
    if steps == [] {
      InitialSingle(cfg);
    } else {
      RunPrefix(cfg, states, steps);
      RunKeepsSingle(cfg, states[..|steps|], steps[..|steps| - 1]);
      RunKeepsInv(cfg, states[..|steps|], steps[..|steps| - 1]);
      StepKeepsSingle(cfg, states[|steps| - 1], steps[|steps| - 1]);
    }
  }

  lemma InitialSingle(cfg: Config)
    ensures SingleInv(cfg, Initial)
  {
  }

  /** In every run whose cancellations leave behind no call and no flight that
      may start one, at most one resolver call runs per name. */
  lemma AtMostOneCallPerName(cfg: Config, states: seq<State>, steps: seq<Step>, host: string)
    requires 1 <= cfg.maxEntries && IsRun(cfg, states, steps) && NoneDoubles(cfg, states, steps)
    ensures !TwoCalls(Final(states), host)
  {
    hide TwoCalls, SingleInv;
    RunKeepsInv(cfg, states, steps);
    RunKeepsSingle(cfg, states, steps);
    SingleHasNoTwo(cfg, Final(states), host);
  }

  // ------------------------------------------- no call while there is an answer

  /** A caller about to call the resolver has nothing remembered for the name. */
  ghost predicate Unremembered(s: State) {
    forall c :: c in s.callers && s.callers[c].Ready? ==> !Hit(s.entries, s.callers[c].host, s.now)
  }

  /** A caller gets ready to call only by looking and finding nothing. */
  lemma ReadyAfterMiss(cfg: Config, s: State, step: Step, c: nat)
    requires Enabled(cfg, s, step) && c in Apply(cfg, s, step).callers
    requires Apply(cfg, s, step).callers[c].Ready? && !(c in s.callers && s.callers[c].Ready?)
    ensures !Hit(s.entries, Apply(cfg, s, step).callers[c].host, s.now) && Apply(cfg, s, step).now == s.now
  {
    hide Stored, Hit, Touched, OutcomeOf, EndFlight;
  }

  lemma StepKeepsUnremembered(cfg: Config, s: State, step: Step)
    requires 1 <= cfg.maxEntries && |s.entries| <= cfg.maxEntries
    requires PermitInv(s) && Attached(cfg, AStore, s) && Unremembered(s) && Enabled(cfg, s, step)
    ensures Unremembered(Apply(cfg, s, step))
  {
    hide Enabled, Apply, PermitInv, Attached, PcNext;
    if step.Remember? {
      RememberKeepsUnremembered(cfg, s, step.c, step.table);
    } else {
      var s' := Apply(cfg, s, step);
      OnlyRememberStores(cfg, s, step);
      StepMovesCaller(cfg, s, step);
      StepFrames(cfg, s, step);
      forall c | c in s'.callers && s'.callers[c].Ready?
        ensures !Hit(s'.entries, s'.callers[c].host, s'.now)
      {
        if !(c in s.callers && s.callers[c].Ready?) {
          ReadyAfterMiss(cfg, s, step, c);
        } else {
          StillReady(cfg, s, step, c);
        }
      }
    }
  }

  lemma StillReady(cfg: Config, s: State, step: Step, c: nat)
    requires Enabled(cfg, s, step) && c in s.callers && s.callers[c].Ready?
    requires c in Apply(cfg, s, step).callers && Apply(cfg, s, step).callers[c].Ready?
    ensures Apply(cfg, s, step).callers[c] == s.callers[c]
  {
    hide Enabled, Apply;
    StepMovesCaller(cfg, s, step);
  }

  lemma RememberKeepsUnremembered(cfg: Config, s: State, c: nat, table: Table)
    requires 1 <= cfg.maxEntries && |s.entries| <= cfg.maxEntries
    requires PermitInv(s) && Attached(cfg, AStore, s) && Unremembered(s)
    requires Enabled(cfg, s, Remember(c, table))
    ensures Unremembered(Apply(cfg, s, Remember(c, table)))
  {
    hide PermitInv, Attached;
    var s', pc := Apply(cfg, s, Remember(c, table)), s.callers[c];
    var o := OutcomeOf(s, pc.host, pc.call);
    var e := Entry(o, s.now + Ttl(cfg, o), s.now);
    if !o.Transient? {
      StoreKeepsOthers(s.entries, cfg.maxEntries, pc.host, e, s.now, table);
    }
    hide Stored;
    forall d | d in s'.callers && s'.callers[d].Ready?
      ensures !Hit(s'.entries, s'.callers[d].host, s'.now)
    {
      assert d != c && s.callers[d] == s'.callers[d];
      if Lasting(cfg, o) {
        InsideIsUnique(cfg, AStore, s, c, d);
      }
    }
  }

  /** What rules out a call for a name that is remembered. */
  ghost predicate FreshInv(cfg: Config, s: State) {
    Attached(cfg, AStore, s) && Unremembered(s)
  }

  lemma StepKeepsFresh(cfg: Config, s: State, step: Step)
    requires 1 <= cfg.maxEntries && Inv(cfg, s) && FreshInv(cfg, s) && Enabled(cfg, s, step)
    requires step.Cancel? ==> !Restarts(cfg, s, step.c)
    ensures FreshInv(cfg, Apply(cfg, s, step))
  {
    hide Attached, Unremembered, Apply, OutcomeInv, OpenWithout, GuardInv, PermitInv, CallInv;
    StepKeepsAttached(cfg, AStore, s, step);
    StepKeepsUnremembered(cfg, s, step);
  }

  lemma {:induction false} RunKeepsFresh(cfg: Config, states: seq<State>, steps: seq<Step>)
    requires 1 <= cfg.maxEntries && IsRun(cfg, states, steps) && NoneRestarts(cfg, states, steps)
    ensures FreshInv(cfg, Final(states))
  {
    hide Inv, FreshInv, Restarts, Apply, Enabled;
    if steps == [] {
      InitialFresh(cfg);
    } else {
      RunPrefix(cfg, states, steps);
      RunKeepsFresh(cfg, states[..|steps|], steps[..|steps| - 1]);
      RunKeepsInv(cfg, states[..|steps|], steps[..|steps| - 1]);
      StepKeepsFresh(cfg, states[|steps| - 1], steps[|steps| - 1]);
    }
  }

  lemma InitialFresh(cfg: Config)
    ensures FreshInv(cfg, Initial)
  {
  }

  /** A resolver call for `host` may start although an answer that still holds
      is in the table. */
  ghost predicate StartsRemembered(cfg: Config, s: State, host: string) {
    && Hit(s.entries, host, s.now)
    && exists c :: Enabled(cfg, s, Start(c)) && s.callers[c].host == host
  }

  /** In every run whose cancellations leave behind no flight that may store an
      answer, no call starts while an answer that still holds is in the table. */
  lemma NoCallWhileRemembered(cfg: Config, states: seq<State>, steps: seq<Step>, host: string)
    requires 1 <= cfg.maxEntries && IsRun(cfg, states, steps) && NoneRestarts(cfg, states, steps)
    ensures !StartsRemembered(cfg, Final(states), host)
  {
    RunKeepsFresh(cfg, states, steps);
  }
}
