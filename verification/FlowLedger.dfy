/** What the counters say against what was recorded: over every run each
    counter is the sum of the recordings made to it, in its own direction. */
module FlowLedger {
  import opened FlowTraffic

  /** What a step records on a node, in one direction. */
  function OnNode(s: State, step: Step, node: string, dir: Direction): nat {
    match step
    case RecordNode(h, d, bytes) =>
      if h < |s.flows| && s.flows[h].node == node && d == dir then bytes else 0
    case RecordUntracked(k, d, bytes) =>
      if k < |s.untracked| && s.untracked[k].node == node && d == dir then bytes else 0
    case _ => 0
  }

  /** What a step records on a listed flow. */
  function OnFlow(step: Step, h: nat, dir: Direction): nat {
    if step.RecordNode? && step.h == h && step.dir == dir then step.bytes else 0
  }

  function NodeTotal(states: seq<State>, steps: seq<Step>, n: nat, node: string, dir: Direction): nat
    requires n <= |steps| <= |states|
  {
    if n == 0 then 0
    else NodeTotal(states, steps, n - 1, node, dir) + OnNode(states[n - 1], steps[n - 1], node, dir)
  }

  function FlowTotal(steps: seq<Step>, n: nat, h: nat, dir: Direction): nat
    requires n <= |steps|
  {
    if n == 0 then 0 else FlowTotal(steps, n - 1, h, dir) + OnFlow(steps[n - 1], h, dir)
  }

  lemma StepRecordsOnNode(s: State, step: Step, node: string)
    requires Enabled(s, step)
    ensures var t, t' := NodeOf(s, node), NodeOf(Apply(s, step), node);
      && t'.bytes.sent == t.bytes.sent + OnNode(s, step, node, Sent)
      && t'.bytes.received == t.bytes.received + OnNode(s, step, node, Received)
  {
  }

  /** At every moment of every interleaving a node's two totals are the bytes
      recorded as sent, and as received, on its flows, listed or not. */
  lemma {:induction false} NodeTotalsAreRecorded(states: seq<State>, steps: seq<Step>, n: nat, node: string)
    requires IsRun(states, steps) && n <= |steps|
    ensures NodeOf(states[n], node).bytes.sent == NodeTotal(states, steps, n, node, Sent)
    ensures NodeOf(states[n], node).bytes.received == NodeTotal(states, steps, n, node, Received)
    decreases n
  {
    if n > 0 {
      hide Enabled, Apply, OnNode;
      NodeTotalsAreRecorded(states, steps, n - 1, node);
      StepRecordsOnNode(states[n - 1], steps[n - 1], node);
    }
  }

  /** The recordings of flow `h` that have reached its node and not yet itself. */
  function UnderWay(pending: seq<Pending>, h: nat, dir: Direction): nat {
    Sum(pending, Weight(h, dir))
  }

  function Weight(h: nat, dir: Direction): Pending -> nat {
    (p: Pending) => if p.h == h && p.dir == dir then p.bytes else 0
  }

  function FlowBytesOf(s: State, h: nat): Volume {
    if h < |s.flows| then s.flows[h].bytes else Volume(0, 0)
  }

  lemma RecordNodeUnderWay(s: State, k: nat, d: Direction, bytes: nat, h: nat, dir: Direction)
    requires k < |s.flows|
    ensures UnderWay(Apply(s, RecordNode(k, d, bytes)).pending, h, dir)
            == UnderWay(s.pending, h, dir) + OnFlow(RecordNode(k, d, bytes), h, dir)
  {
    hide Sum;
    SumSnoc(s.pending, Pending(s.flows[k].node, k, d, bytes), Weight(h, dir));
  }

  lemma RecordFlowLands(s: State, r: nat, h: nat)
    requires Enabled(s, RecordFlow(r))
    ensures var s' := Apply(s, RecordFlow(r));
      && FlowBytesOf(s', h).sent + UnderWay(s'.pending, h, Sent)
         == FlowBytesOf(s, h).sent + UnderWay(s.pending, h, Sent)
      && FlowBytesOf(s', h).received + UnderWay(s'.pending, h, Received)
         == FlowBytesOf(s, h).received + UnderWay(s.pending, h, Received)
  {
    hide Sum;
    SumWithout(s.pending, r, Weight(h, Sent));
    SumWithout(s.pending, r, Weight(h, Received));
  }

  lemma StepRecordsOnFlow(s: State, step: Step, h: nat)
    requires Enabled(s, step)
    ensures var s' := Apply(s, step);
      && FlowBytesOf(s', h).sent + UnderWay(s'.pending, h, Sent)
         == FlowBytesOf(s, h).sent + UnderWay(s.pending, h, Sent) + OnFlow(step, h, Sent)
      && FlowBytesOf(s', h).received + UnderWay(s'.pending, h, Received)
         == FlowBytesOf(s, h).received + UnderWay(s.pending, h, Received) + OnFlow(step, h, Received)
  {
    hide UnderWay;
    if step.RecordFlow? {
      RecordFlowLands(s, step.r, h);
    } else if step.RecordNode? {
      RecordNodeUnderWay(s, step.h, step.dir, step.bytes, h, Sent);
      RecordNodeUnderWay(s, step.h, step.dir, step.bytes, h, Received);
    }
  }

  /** And a listed flow's two counts, with what is under way to it, are the bytes
      recorded as sent and as received on that very flow. */
  lemma {:induction false} FlowCountsAreRecorded(states: seq<State>, steps: seq<Step>, n: nat, h: nat)
    requires IsRun(states, steps) && n <= |steps|
    ensures FlowBytesOf(states[n], h).sent + UnderWay(states[n].pending, h, Sent) == FlowTotal(steps, n, h, Sent)
    ensures FlowBytesOf(states[n], h).received + UnderWay(states[n].pending, h, Received)
            == FlowTotal(steps, n, h, Received)
    decreases n
  {
    if n > 0 {
      hide Enabled, Apply, OnFlow, FlowBytesOf, UnderWay;
      FlowCountsAreRecorded(states, steps, n - 1, h);
      StepRecordsOnFlow(states[n - 1], steps[n - 1], h);
    }
  }

  /** With nothing under way a flow's counts are exactly what was recorded on it. */
  lemma QuietFlowsAreExact(states: seq<State>, steps: seq<Step>, n: nat, h: nat)
    requires IsRun(states, steps) && n <= |steps| && states[n].pending == [] && h < |states[n].flows|
    ensures states[n].flows[h].bytes.sent == FlowTotal(steps, n, h, Sent)
    ensures states[n].flows[h].bytes.received == FlowTotal(steps, n, h, Received)
  {
    FlowCountsAreRecorded(states, steps, n, h);
  }

  // -------------------------------------------------- guards and the registry

  /** A step that opens a guard on `node`. */
  predicate Opens(s: State, step: Step, node: string) {
    || (step.Enter? && step.h < |s.flows| && s.flows[step.h].node == node)
    || (step.OpenUntracked? && step.node == node)
  }

  /** A step that drops one. */
  predicate Drops(s: State, step: Step, node: string) {
    || (step.Leave? && step.h < |s.flows| && s.flows[step.h].node == node)
    || (step.LeaveUntracked? && step.k < |s.untracked| && s.untracked[step.k].node == node)
  }

  function Opened(states: seq<State>, steps: seq<Step>, n: nat, node: string): nat
    requires n <= |steps| <= |states|
  {
    if n == 0 then 0
    else Opened(states, steps, n - 1, node) + if Opens(states[n - 1], steps[n - 1], node) then 1 else 0
  }

  function Dropped(states: seq<State>, steps: seq<Step>, n: nat, node: string): nat
    requires n <= |steps| <= |states|
  {
    if n == 0 then 0
    else Dropped(states, steps, n - 1, node) + if Drops(states[n - 1], steps[n - 1], node) then 1 else 0
  }

  lemma StepCounts(s: State, step: Step, node: string)
    requires Enabled(s, step) && forall n :: Counted(s, n)
    ensures NodeOf(Apply(s, step), node).active + (if Drops(s, step, node) then 1 else 0)
            == NodeOf(s, node).active + if Opens(s, step, node) then 1 else 0
  {
    if step.Leave? || step.LeaveUntracked? {
      LeaveNeverClamps(s, step);
    }
    hide Counted;
  }

  /** At every moment of every interleaving a node's active count is the guards
      opened on it less the guards dropped. */
  lemma {:induction false} ActiveIsOpenedLessDropped(states: seq<State>, steps: seq<Step>, n: nat, node: string)
    requires IsRun(states, steps) && n <= |steps|
    ensures NodeOf(states[n], node).active + Dropped(states, steps, n, node) == Opened(states, steps, n, node)
    decreases n
  {
    if n > 0 {
      hide Enabled, Apply, Opens, Drops, Conserved, Counted, IdsDistinct, Registered, PendingOk, NodeOf;
      ActiveIsOpenedLessDropped(states, steps, n - 1, node);
      RunKeepsInv(states[..n], steps[..n - 1]);
      StepCounts(states[n - 1], steps[n - 1], node);
    } else {
      assert NodeOf(Initial, node).active == 0;
    }
  }

  /** Whether flow `h` was put on the list and not taken off it, in the first `n` steps. */
  predicate PutAndNotTaken(steps: seq<Step>, n: nat, h: nat)
    requires n <= |steps|
  {
    n > 0 && steps[n - 1] != Remove(h) && (steps[n - 1] == List(h) || PutAndNotTaken(steps, n - 1, h))
  }

  predicate OnList(s: State, h: nat) {
    h < |s.flows| && IsListed(s.flows[h].stage)
  }

  lemma StepLists(s: State, step: Step, h: nat)
    requires Enabled(s, step)
    ensures OnList(Apply(s, step), h) <==> step != Remove(h) && (step == List(h) || OnList(s, h))
  {
  }

  lemma {:induction false} ListedIsPut(states: seq<State>, steps: seq<Step>, n: nat, h: nat)
    requires IsRun(states, steps) && n <= |steps|
    ensures OnList(states[n], h) <==> PutAndNotTaken(steps, n, h)
    decreases n
  {
    if n > 0 {
      hide Enabled, Apply, OnList;
      ListedIsPut(states, steps, n - 1, h);
      StepLists(states[n - 1], steps[n - 1], h);
    }
  }

  /** And the registry lists a flow, under its id, exactly from the step that puts
      it there to the one that takes it off. */
  lemma RegistryIsWhatWasPut(states: seq<State>, steps: seq<Step>, n: nat, h: nat)
    requires IsRun(states, steps) && n <= |steps| && h < |states[n].flows|
    ensures states[n].flows[h].id in states[n].registry <==> PutAndNotTaken(steps, n, h)
    ensures PutAndNotTaken(steps, n, h) ==> states[n].registry[states[n].flows[h].id] == h
  {
    ListedIsPut(states, steps, n, h);
    RunKeepsInv(states[..n + 1], steps[..n]);
    ListedUnderId(states[n], h);
    hide Enabled, Apply, Conserved, Counted, IdsDistinct, Registered, PendingOk;
  }

  lemma ListedUnderId(s: State, h: nat)
    requires h < |s.flows|
    ensures IdsDistinct(s) && Registered(s) ==>
      && (s.flows[h].id in s.registry <==> OnList(s, h))
      && (OnList(s, h) ==> s.registry[s.flows[h].id] == h)
  {
  }
}
