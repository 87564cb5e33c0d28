/** Asking a flow to end: a flag and a notification
    (crates/nexapipe-client/src/flow.rs, `FlowEntry::cancelled` and `cancel`).

    Any number of waiters and cancellers interleave. A waiter that has created
    its notification receives every `notify_waiters` issued afterwards. */
module FlowCancel {

  /** Where a waiter is; `since` is how many notifications had been issued when
      its own was created, and `round` how often the loop has gone round. */
  datatype Waiter =
    | Entering(round: nat)
    | Armed(since: nat, round: nat)
    | Asleep(since: nat, round: nat)
    | Awake(round: nat)
    | Returned(round: nat)

  datatype Canceller = Begun | Stored | Finished

  datatype State = State(
    flag: bool,
    notifications: nat,
    waiters: map<nat, Waiter>,
    cancellers: map<nat, Canceller>)

  const Initial: State := State(false, 0, map[], map[])

  datatype Step =
    | Wait(w: nat)
    | Arm(w: nat)
    | Check(w: nat)
    | Wake(w: nat)
    | Recheck(w: nat)
    | Cancel(c: nat)
    | Store(c: nat)
    | Notify(c: nat)

  predicate Enabled(s: State, step: Step) {
    match step
    case Wait(w) => w !in s.waiters
    case Arm(w) => w in s.waiters && s.waiters[w].Entering?
    case Check(w) => w in s.waiters && s.waiters[w].Armed?
    case Wake(w) => w in s.waiters && s.waiters[w].Asleep? && s.waiters[w].since < s.notifications
    case Recheck(w) => w in s.waiters && s.waiters[w].Awake?
    case Cancel(c) => c !in s.cancellers
    case Store(c) => c in s.cancellers && s.cancellers[c].Begun?
    case Notify(c) => c in s.cancellers && s.cancellers[c].Stored?
  }

  function Put(s: State, w: nat, to: Waiter): State {
    s.(waiters := s.waiters[w := to])
  }

  function Apply(s: State, step: Step): State
    requires Enabled(s, step)
  {
    match step
    case Wait(w) => Put(s, w, Entering(0))
    case Arm(w) => Put(s, w, Armed(s.notifications, s.waiters[w].round))
    case Check(w) =>
      var round := s.waiters[w].round;
      Put(s, w, if s.flag then Returned(round) else Asleep(s.waiters[w].since, round))
    case Wake(w) => Put(s, w, Awake(s.waiters[w].round))
    case Recheck(w) =>
      var round := s.waiters[w].round;
      Put(s, w, if s.flag then Returned(round) else Entering(round + 1))
    case Cancel(c) => s.(cancellers := s.cancellers[c := Begun])
    case Store(c) => s.(flag := true, cancellers := s.cancellers[c := Stored])
    case Notify(c) =>
      s.(notifications := s.notifications + 1, cancellers := s.cancellers[c := Finished])
  }

  predicate WaiterInv(s: State, w: Waiter) {
    && w.round == 0
    && (w.Armed? || w.Asleep? ==> w.since <= s.notifications)
    && (w.Asleep? ==> w.since == 0)
    && (w.Awake? || w.Returned? ==> s.flag)
  }

  predicate CancellerInv(s: State, c: Canceller) {
    && (c.Stored? || c.Finished? ==> s.flag)
    && (c.Finished? ==> s.notifications > 0)
  }

  ghost predicate Inv(s: State) {
    && (s.notifications > 0 ==> s.flag)
    && (forall w :: w in s.waiters ==> WaiterInv(s, s.waiters[w]))
    && (forall c :: c in s.cancellers ==> CancellerInv(s, s.cancellers[c]))
  }

  lemma StepKeepsInv(s: State, step: Step)
    requires Inv(s) && Enabled(s, step)
    ensures Inv(Apply(s, step))
  {
    var s' := Apply(s, step);
    assert step.Store? || step.Notify? ==> CancellerInv(s, s.cancellers[step.c]);
    forall w | w in s'.waiters ensures WaiterInv(s', s'.waiters[w]) {
      assert w in s.waiters ==> WaiterInv(s, s.waiters[w]);
    }
    forall c | c in s'.cancellers ensures CancellerInv(s', s'.cancellers[c]) {
      assert c in s.cancellers ==> CancellerInv(s, s.cancellers[c]);
    }
  }

  ghost predicate IsRun(states: seq<State>, steps: seq<Step>) {
    && |states| == |steps| + 1
    && states[0] == Initial
    && forall i :: 0 <= i < |steps| ==>
         Enabled(states[i], steps[i]) && states[i + 1] == Apply(states[i], steps[i])
  }

  lemma {:induction false} RunKeepsInv(states: seq<State>, steps: seq<Step>)
    requires IsRun(states, steps)
    ensures Inv(states[|states| - 1])
  {
    hide Inv, Apply, Enabled;
    if steps == [] {
      InitialInv();
    } else {
      var n := |steps| - 1;
      RunKeepsInv(states[..n + 1], steps[..n]);
      StepKeepsInv(states[n], steps[n]);
    }
  }

  lemma InitialInv()
    ensures Inv(Initial)
  {
  }

  predicate HasFinished(s: State) {
    exists c :: c in s.cancellers && s.cancellers[c].Finished?
  }

  /** The step a waiter takes next. */
  function OwnStep(w: nat, at: Waiter): Step
    requires !at.Returned?
  {
    match at
    case Entering(_) => Arm(w)
    case Armed(_, _) => Check(w)
    case Asleep(_, _) => Wake(w)
    case Awake(_) => Recheck(w)
  }

  /** No wakeup is lost: once a cancel has finished, no waiter is blocked. */
  lemma NoWaiterBlockedAfterCancel(states: seq<State>, steps: seq<Step>, w: nat)
    requires IsRun(states, steps)
    requires var s := states[|states| - 1];
      HasFinished(s) && w in s.waiters && !s.waiters[w].Returned?
    ensures var s := states[|states| - 1];
      Enabled(s, OwnStep(w, s.waiters[w]))
  {
    RunKeepsInv(states, steps);
    var s := states[|states| - 1];
    assert WaiterInv(s, s.waiters[w]);
    var c :| c in s.cancellers && s.cancellers[c].Finished?;
    assert CancellerInv(s, s.cancellers[c]);
  }

  /** No waiter returns before somebody asked, and none goes round the loop twice. */
  lemma ReturnsOnlyWhenAsked(states: seq<State>, steps: seq<Step>, w: nat)
    requires IsRun(states, steps) && w in states[|states| - 1].waiters
    ensures states[|states| - 1].waiters[w].Returned? ==> states[|states| - 1].flag
    ensures states[|states| - 1].waiters[w].round == 0
  {
    RunKeepsInv(states, steps);
    assert WaiterInv(states[|states| - 1], states[|states| - 1].waiters[w]);
  }

  /** How many of its own steps a waiter still needs once the flag is set. */
  function StepsLeft(w: Waiter): nat {
    match w
    case Entering(_) => 2
    case Armed(_, _) => 1
    case Asleep(_, _) => 2
    case Awake(_) => 1
    case Returned(_) => 0
  }

  /** Once the flag is set every step a waiter takes brings it closer to
      returning, and nobody else's step moves it away. */
  lemma FlaggedStepNears(s: State, step: Step, w: nat)
    requires Inv(s) && s.flag && Enabled(s, step) && w in s.waiters
    ensures var s' := Apply(s, step);
      && s'.flag && w in s'.waiters
      && (if IsOwn(step, w) then StepsLeft(s'.waiters[w]) < StepsLeft(s.waiters[w])
          else s'.waiters[w] == s.waiters[w])
  {
  }

  predicate IsOwn(step: Step, w: nat) {
    (step.Wait? || step.Arm? || step.Check? || step.Wake? || step.Recheck?) && step.w == w
  }

  /** How many of `steps` are `w`'s own. */
  function OwnSteps(steps: seq<Step>, w: nat): nat {
    if steps == [] then 0
    else OwnSteps(steps[..|steps| - 1], w) + if IsOwn(steps[|steps| - 1], w) then 1 else 0
  }

  lemma {:induction false} OwnStepsNear(states: seq<State>, steps: seq<Step>, i: nat, j: nat, w: nat)
    requires IsRun(states, steps) && i <= j < |states| && states[i].flag && w in states[i].waiters
    ensures states[j].flag && w in states[j].waiters
    ensures StepsLeft(states[j].waiters[w]) + OwnSteps(steps[i..j], w) <= StepsLeft(states[i].waiters[w])
    decreases j - i
  {
    hide Inv, Apply, Enabled, StepsLeft;
    if i < j {
      OwnStepsNear(states, steps, i, j - 1, w);
      RunKeepsInv(states[..j], steps[..j - 1]);
      FlaggedStepNears(states[j - 1], steps[j - 1], w);
      assert steps[i..j][..j - 1 - i] == steps[i..j - 1];
    }
  }

  /** In every run: from the moment the flag is set a waiter takes at most two
      more steps of its own, whatever the others do in between, and with the
      second of them, or sooner, it has returned. After a cancel has finished
      its next step can be taken at any time until then. */
  lemma FlaggedWaitersReturn(states: seq<State>, steps: seq<Step>, i: nat, j: nat, w: nat)
    requires IsRun(states, steps) && i <= j < |states| && states[i].flag && w in states[i].waiters
    ensures w in states[j].waiters && OwnSteps(steps[i..j], w) <= 2
    ensures OwnSteps(steps[i..j], w) == 2 ==> states[j].waiters[w].Returned?
    ensures HasFinished(states[j]) && !states[j].waiters[w].Returned? ==>
              Enabled(states[j], OwnStep(w, states[j].waiters[w])) && IsOwn(OwnStep(w, states[j].waiters[w]), w)
  {
    OwnStepsNear(states, steps, i, j, w);
    if HasFinished(states[j]) && !states[j].waiters[w].Returned? {
      NoWaiterBlockedAfterCancel(states[..j + 1], steps[..j], w);
    }
  }
}
