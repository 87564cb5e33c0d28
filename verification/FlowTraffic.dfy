/** What each node carries, flow by flow, while any number of tasks open flows,
    record bytes and drop guards at once (crates/nexapipe-client/src/traffic.rs
    and flow.rs). A recording adds to the node first and to the flow second; an
    open lists the flow first and counts it second; a drop counts it out first
    and takes it off the list second. Each addition is one atomic step. */
module FlowTraffic {
  datatype Direction = Sent | Received

  datatype Volume = Volume(sent: nat, received: nat)
  {
    function Get(d: Direction): nat {
      match d case Sent => sent case Received => received
    }

    function Add(d: Direction, bytes: nat): Volume {
      match d
      case Sent => this.(sent := sent + bytes)
      case Received => this.(received := received + bytes)
    }
  }

  const Zero: Volume := Volume(0, 0)

  /** The life of a listed flow: it has its id, it is in the registry, it is
      counted on its node, it is no longer counted, it is out of the registry. */
  datatype Stage = Allotted | Listed | Open | Left | Closed

  datatype Flow = Flow(id: nat, node: string, bytes: Volume, stage: Stage)

  /** A flow nobody tracks: counted on its node and listed nowhere. */
  datatype Untracked = Untracked(node: string, open: bool)

  /** A recording of a listed flow that has reached the node and not yet the flow. */
  datatype Pending = Pending(node: string, h: nat, dir: Direction, bytes: nat)

  datatype NodeTraffic = NodeTraffic(bytes: Volume, active: nat)

  /** `flows` are the entries ever made, each known to its holders by its place
      `h`; `next` is the counter ids are taken from, and `registry` says which
      entry is listed under an id. */
  datatype State = State(
    nodes: map<string, NodeTraffic>,
    flows: seq<Flow>,
    next: nat,
    registry: map<nat, nat>,
    untracked: seq<Untracked>,
    untrackedBytes: map<string, Volume>,
    pending: seq<Pending>)

  const Initial: State := State(map[], [], 0, map[], [], map[], [])

  function NodeOf(s: State, node: string): NodeTraffic {
    if node in s.nodes then s.nodes[node] else NodeTraffic(Zero, 0)
  }

  function UntrackedBytesOf(s: State, node: string): Volume {
    if node in s.untrackedBytes then s.untrackedBytes[node] else Zero
  }

  predicate IsFlow(s: State, h: nat) {
    h < |s.flows|
  }

  datatype Step =
    | Allot(node: string)
    | List(h: nat)
    | Enter(h: nat)
    | Leave(h: nat)
    | Remove(h: nat)
    | OpenUntracked(node: string)
    | LeaveUntracked(k: nat)
    | RecordNode(h: nat, dir: Direction, bytes: nat)
    | RecordFlow(r: nat)
    | RecordUntracked(k: nat, dir: Direction, bytes: nat)

  predicate Enabled(s: State, step: Step) {
    match step
    case Allot(_) => true
    case List(h) => IsFlow(s, h) && s.flows[h].stage.Allotted?
    case Enter(h) => IsFlow(s, h) && s.flows[h].stage.Listed?
    case Leave(h) => IsFlow(s, h) && s.flows[h].stage.Open?
    case Remove(h) => IsFlow(s, h) && s.flows[h].stage.Left?
    case OpenUntracked(_) => true
    case LeaveUntracked(k) => k < |s.untracked| && s.untracked[k].open
    // A counter outlives the guard it came from.
    case RecordNode(h, _, _) => IsFlow(s, h)
    case RecordFlow(r) => r < |s.pending| && IsFlow(s, s.pending[r].h)
    case RecordUntracked(k, _, _) => k < |s.untracked|
  }

  function AddActive(s: State, node: string): State {
    var t := NodeOf(s, node);
    s.(nodes := s.nodes[node := t.(active := t.active + 1)])
  }

  /** The saturating decrement. */
  function SubActive(s: State, node: string): State {
    var t := NodeOf(s, node);
    s.(nodes := s.nodes[node := t.(active := if t.active == 0 then 0 else t.active - 1)])
  }

  function AddBytes(s: State, node: string, dir: Direction, bytes: nat): State {
    var t := NodeOf(s, node);
    s.(nodes := s.nodes[node := t.(bytes := t.bytes.Add(dir, bytes))])
  }

  function SetStage(s: State, h: nat, stage: Stage): State
    requires IsFlow(s, h)
  {
    s.(flows := s.flows[h := s.flows[h].(stage := stage)])
  }

  function Without<T>(xs: seq<T>, i: nat): seq<T>
    requires i < |xs|
  {
    xs[..i] + xs[i + 1..]
  }

  function Apply(s: State, step: Step): State
    requires Enabled(s, step)
  {
    match step
    case Allot(node) => s.(next := s.next + 1, flows := s.flows + [Flow(s.next + 1, node, Zero, Allotted)])
    case List(h) => SetStage(s.(registry := s.registry[s.flows[h].id := h]), h, Listed)
    case Enter(h) => SetStage(AddActive(s, s.flows[h].node), h, Open)
    case Leave(h) => SetStage(SubActive(s, s.flows[h].node), h, Left)
    case Remove(h) => SetStage(s.(registry := s.registry - {s.flows[h].id}), h, Closed)
    case OpenUntracked(node) =>
      AddActive(s.(untracked := s.untracked + [Untracked(node, true)]), node)
    case LeaveUntracked(k) =>
      SubActive(s.(untracked := s.untracked[k := s.untracked[k].(open := false)]), s.untracked[k].node)
    case RecordNode(h, dir, bytes) =>
      if bytes == 0 then s
      else
        var node := s.flows[h].node;
        AddBytes(s.(pending := s.pending + [Pending(node, h, dir, bytes)]), node, dir, bytes)
    case RecordFlow(r) =>
      var p := s.pending[r];
      var flow := s.flows[p.h];
      s.(pending := Without(s.pending, r),
         flows := s.flows[p.h := flow.(bytes := flow.bytes.Add(p.dir, p.bytes))])
    case RecordUntracked(k, dir, bytes) =>
      var node := s.untracked[k].node;
      AddBytes(s.(untrackedBytes := s.untrackedBytes[node := UntrackedBytesOf(s, node).Add(dir, bytes)]),
               node, dir, bytes)
  }

  // -------------------------------------------------------------------- sums

  function Sum<T>(xs: seq<T>, weight: T -> nat): nat {
    if xs == [] then 0 else Sum(xs[..|xs| - 1], weight) + weight(xs[|xs| - 1])
  }

  lemma SumSnoc<T>(xs: seq<T>, x: T, weight: T -> nat)
    ensures Sum(xs + [x], weight) == Sum(xs, weight) + weight(x)
  {
    assert (xs + [x])[..|xs|] == xs;
  }

  lemma {:induction false} SumUpdate<T>(xs: seq<T>, i: nat, x: T, weight: T -> nat)
    requires i < |xs|
    ensures Sum(xs[i := x], weight) + weight(xs[i]) == Sum(xs, weight) + weight(x)
  {
    var n := |xs| - 1;
    if i == n {
      assert xs[i := x][..n] == xs[..n];
    } else {
      assert xs[i := x][..n] == xs[..n][i := x];
      SumUpdate(xs[..n], i, x, weight);
    }
  }

  lemma {:induction false} SumWithout<T>(xs: seq<T>, i: nat, weight: T -> nat)
    requires i < |xs|
    ensures Sum(Without(xs, i), weight) + weight(xs[i]) == Sum(xs, weight)
  {
    var n := |xs| - 1;
    if i == n {
      assert Without(xs, i) == xs[..n];
    } else {
      SumWithout(xs[..n], i, weight);
      assert Without(xs, i) == Without(xs[..n], i) + [xs[n]];
      SumSnoc(Without(xs[..n], i), xs[n], weight);
    }
  }

  /** The bytes of one flow, if it is a flow of `node`. */
  function FlowBytes(node: string, d: Direction): Flow -> nat {
    (f: Flow) => if f.node == node then f.bytes.Get(d) else 0
  }

  /** The bytes of one recording on its way, if its flow is one of `node`. */
  function PendingBytes(node: string, d: Direction): Pending -> nat {
    (p: Pending) => if p.node == node && p.dir == d then p.bytes else 0
  }

  function FlowOpen(node: string): Flow -> nat {
    (f: Flow) => if f.node == node && f.stage.Open? then 1 else 0
  }

  function UntrackedOpen(node: string): Untracked -> nat {
    (u: Untracked) => if u.node == node && u.open then 1 else 0
  }

  // -------------------------------------------------------------- invariants

  /** A node's total is what its flows have, what untracked flows moved, and
      what is halfway between the two additions. */
  predicate Conserved(s: State, n: string, d: Direction) {
    NodeOf(s, n).bytes.Get(d) ==
      Sum(s.flows, FlowBytes(n, d)) + UntrackedBytesOf(s, n).Get(d)
      + Sum(s.pending, PendingBytes(n, d))
  }

  /** A node's active count is its guards entered and not left. */
  predicate Counted(s: State, n: string) {
    NodeOf(s, n).active == Sum(s.flows, FlowOpen(n)) + Sum(s.untracked, UntrackedOpen(n))
  }

  predicate IsListed(stage: Stage) {
    stage.Listed? || stage.Open? || stage.Left?
  }

  /** Every entry has an id of its own, taken from the counter. */
  ghost predicate IdsDistinct(s: State) {
    && (forall h :: 0 <= h < |s.flows| ==> 1 <= s.flows[h].id <= s.next)
    && (forall h, k :: 0 <= h < k < |s.flows| ==> s.flows[h].id != s.flows[k].id)
  }

  /** The registry lists exactly the flows between being listed and being
      removed, each under its own id. */
  ghost predicate Registered(s: State) {
    && (forall id :: id in s.registry ==>
          && IsFlow(s, s.registry[id]) && s.flows[s.registry[id]].id == id
          && IsListed(s.flows[s.registry[id]].stage))
    && (forall h :: 0 <= h < |s.flows| && IsListed(s.flows[h].stage) ==>
          s.flows[h].id in s.registry && s.registry[s.flows[h].id] == h)
  }

  /** A recording on its way belongs to a flow of the node it was added to. */
  ghost predicate PendingOk(s: State) {
    forall i :: 0 <= i < |s.pending| ==>
      IsFlow(s, s.pending[i].h) && s.flows[s.pending[i].h].node == s.pending[i].node
  }

  ghost predicate Inv(s: State) {
    && (forall n, d :: Conserved(s, n, d))
    && (forall n :: Counted(s, n))
    && IdsDistinct(s)
    && Registered(s)
    && PendingOk(s)
  }

  lemma StageKeepsSums(s: State, h: nat, stage: Stage, n: string, d: Direction)
    requires IsFlow(s, h)
    ensures Sum(SetStage(s, h, stage).flows, FlowBytes(n, d)) == Sum(s.flows, FlowBytes(n, d))
    ensures Sum(SetStage(s, h, stage).flows, FlowOpen(n)) + FlowOpen(n)(s.flows[h])
            == Sum(s.flows, FlowOpen(n)) + FlowOpen(n)(s.flows[h].(stage := stage))
  {
    SumUpdate(s.flows, h, s.flows[h].(stage := stage), FlowBytes(n, d));
    SumUpdate(s.flows, h, s.flows[h].(stage := stage), FlowOpen(n));
  }

  lemma RecordNodeConserves(s: State, h: nat, dir: Direction, bytes: nat, n: string, d: Direction)
    requires IsFlow(s, h) && Conserved(s, n, d)
    ensures Conserved(Apply(s, RecordNode(h, dir, bytes)), n, d)
  {
    hide Sum;
    SumSnoc(s.pending, Pending(s.flows[h].node, h, dir, bytes), PendingBytes(n, d));
  }

  lemma RecordFlowConserves(s: State, r: nat, n: string, d: Direction)
    requires PendingOk(s) && r < |s.pending| && Conserved(s, n, d)
    ensures Conserved(Apply(s, RecordFlow(r)), n, d)
  {
    hide Sum;
    var p := s.pending[r];
    var flow := s.flows[p.h];
    SumWithout(s.pending, r, PendingBytes(n, d));
    SumUpdate(s.flows, p.h, flow.(bytes := flow.bytes.Add(p.dir, p.bytes)), FlowBytes(n, d));
  }

  lemma RecordUntrackedConserves(s: State, k: nat, dir: Direction, bytes: nat, n: string, d: Direction)
    requires k < |s.untracked| && Conserved(s, n, d)
    ensures Conserved(Apply(s, RecordUntracked(k, dir, bytes)), n, d)
  {
    hide Sum;
  }

  lemma GuardStepConserves(s: State, step: Step, n: string, d: Direction)
    requires Enabled(s, step) && Conserved(s, n, d)
    requires !step.RecordNode? && !step.RecordFlow? && !step.RecordUntracked?
    ensures Conserved(Apply(s, step), n, d)
  {
    hide Sum;
    match step
    case Allot(node) => SumSnoc(s.flows, Flow(s.next + 1, node, Zero, Allotted), FlowBytes(n, d));
    case List(h) => StageKeepsSums(s, h, Listed, n, d);
    case Enter(h) => StageKeepsSums(s, h, Open, n, d);
    case Leave(h) => StageKeepsSums(s, h, Left, n, d);
    case Remove(h) => StageKeepsSums(s, h, Closed, n, d);
    case OpenUntracked(_) =>
    case LeaveUntracked(_) =>
  }

  lemma StepConserves(s: State, step: Step, n: string, d: Direction)
    requires PendingOk(s) && Enabled(s, step) && Conserved(s, n, d)
    ensures Conserved(Apply(s, step), n, d)
  {
    hide Apply, Conserved;
    match step
    case RecordNode(h, dir, bytes) => RecordNodeConserves(s, h, dir, bytes, n, d);
    case RecordFlow(r) => RecordFlowConserves(s, r, n, d);
    case RecordUntracked(k, dir, bytes) => RecordUntrackedConserves(s, k, dir, bytes, n, d);
    case _ => GuardStepConserves(s, step, n, d);
  }

  lemma {:induction false} SumAtLeast<T>(xs: seq<T>, i: nat, weight: T -> nat)
    requires i < |xs|
    ensures Sum(xs, weight) >= weight(xs[i])
  {
    if i < |xs| - 1 {
      SumAtLeast(xs[..|xs| - 1], i, weight);
    }
  }

  /** A guard that leaves was counted, so the decrement never clamps. */
  lemma LeaveNeverClamps(s: State, step: Step)
    requires Enabled(s, step) && (step.Leave? || step.LeaveUntracked?)
    requires forall n :: Counted(s, n)
    ensures step.Leave? ==> NodeOf(s, s.flows[step.h].node).active > 0
    ensures step.LeaveUntracked? ==> NodeOf(s, s.untracked[step.k].node).active > 0
  {
    if step.Leave? {
      var n := s.flows[step.h].node;
      assert Counted(s, n);
      SumAtLeast(s.flows, step.h, FlowOpen(n));
    } else {
      var n := s.untracked[step.k].node;
      assert Counted(s, n);
      SumAtLeast(s.untracked, step.k, UntrackedOpen(n));
    }
  }

  lemma LeaveKeepsCount(s: State, step: Step, n: string)
    requires Enabled(s, step) && (step.Leave? || step.LeaveUntracked?) && forall m :: Counted(s, m)
    ensures Counted(Apply(s, step), n)
  {
    hide Sum;
    assert Counted(s, n);
    LeaveNeverClamps(s, step);
    if step.Leave? {
      StageKeepsSums(s, step.h, Left, n, Sent);
    } else {
      SumUpdate(s.untracked, step.k, s.untracked[step.k].(open := false), UntrackedOpen(n));
    }
  }

  lemma StepKeepsCount(s: State, step: Step, n: string)
    requires Enabled(s, step) && forall m :: Counted(s, m)
    ensures Counted(Apply(s, step), n)
  {
    hide Sum;
    assert Counted(s, n);
    match step
    case Allot(node) => SumSnoc(s.flows, Flow(s.next + 1, node, Zero, Allotted), FlowOpen(n));
    case List(h) => StageKeepsSums(s, h, Listed, n, Sent);
    case Enter(h) => StageKeepsSums(s, h, Open, n, Sent);
    case Leave(_) => LeaveKeepsCount(s, step, n);
    case Remove(h) => StageKeepsSums(s, h, Closed, n, Sent);
    case OpenUntracked(node) => SumSnoc(s.untracked, Untracked(node, true), UntrackedOpen(n));
    case LeaveUntracked(_) => LeaveKeepsCount(s, step, n);
    case RecordNode(_, _, _) =>
    case RecordFlow(r) =>
      var p := s.pending[r];
      var flow := s.flows[p.h];
      SumUpdate(s.flows, p.h, flow.(bytes := flow.bytes.Add(p.dir, p.bytes)), FlowOpen(n));
    case RecordUntracked(_, _, _) =>
  }

  /** An entry keeps its id and its node, and no step but an allotment makes one. */
  lemma StepKeepsEntries(s: State, step: Step)
    requires Enabled(s, step)
    ensures var s' := Apply(s, step);
      && |s'.flows| == |s.flows| + (if step.Allot? then 1 else 0)
      && s'.next == s.next + (if step.Allot? then 1 else 0)
      && (step.Allot? ==> s'.flows[|s.flows|].id == s.next + 1 && s'.flows[|s.flows|].node == step.node)
      && forall h :: 0 <= h < |s.flows| ==>
           s'.flows[h].id == s.flows[h].id && s'.flows[h].node == s.flows[h].node
  {
  }

  lemma StepKeepsIds(s: State, step: Step)
    requires Enabled(s, step) && IdsDistinct(s)
    ensures IdsDistinct(Apply(s, step))
  {
    hide Enabled, Apply;
    StepKeepsEntries(s, step);
  }

  /** Only listing and removing change what is listed. */
  lemma StepListing(s: State, step: Step)
    requires Enabled(s, step) && !step.List? && !step.Remove?
    ensures var s' := Apply(s, step);
      && s'.registry == s.registry && |s.flows| <= |s'.flows|
      && (forall h :: 0 <= h < |s.flows| ==> IsListed(s'.flows[h].stage) == IsListed(s.flows[h].stage))
      && (forall h :: |s.flows| <= h < |s'.flows| ==> !IsListed(s'.flows[h].stage))
  {
  }

  lemma ListKeepsRegistry(s: State, h: nat)
    requires IdsDistinct(s) && Registered(s) && IsFlow(s, h) && s.flows[h].stage.Allotted?
    ensures Registered(Apply(s, List(h)))
  {
  }

  lemma RemoveKeepsRegistry(s: State, h: nat)
    requires IdsDistinct(s) && Registered(s) && IsFlow(s, h) && s.flows[h].stage.Left?
    ensures Registered(Apply(s, Remove(h)))
  {
  }

  lemma StepKeepsRegistry(s: State, step: Step)
    requires Enabled(s, step) && IdsDistinct(s) && Registered(s)
    ensures Registered(Apply(s, step))
  {
    if step.List? {
      hide Registered, IdsDistinct, Apply;
      ListKeepsRegistry(s, step.h);
    } else if step.Remove? {
      hide Registered, IdsDistinct, Apply;
      RemoveKeepsRegistry(s, step.h);
    } else {
      hide Enabled, Apply, IsListed;
      StepKeepsEntries(s, step);
      StepListing(s, step);
    }
  }

  lemma StepKeepsPending(s: State, step: Step)
    requires Enabled(s, step) && PendingOk(s)
    ensures PendingOk(Apply(s, step))
  {
  }

  lemma StepKeepsInv(s: State, step: Step)
    requires Inv(s) && Enabled(s, step)
    ensures Inv(Apply(s, step))
  {
    hide Apply, Enabled, Conserved, Counted, IdsDistinct, Registered, PendingOk;
    StepKeepsIds(s, step);
    StepKeepsRegistry(s, step);
    StepKeepsPending(s, step);
    var s' := Apply(s, step);
    forall n, d ensures Conserved(s', n, d) {
      StepConserves(s, step, n, d);
    }
    forall n ensures Counted(s', n) {
      StepKeepsCount(s, step, n);
    }
  }

  ghost predicate IsRun(states: seq<State>, steps: seq<Step>) {
    && |states| == |steps| + 1
    && states[0] == Initial
    && forall i :: 0 <= i < |steps| ==>
         Enabled(states[i], steps[i]) && states[i + 1] == Apply(states[i], steps[i])
  }

  /** At every moment of every interleaving: a node's bytes are conserved, its
      active count is its open guards, and the registry is exact. */
  lemma {:induction false} RunKeepsInv(states: seq<State>, steps: seq<Step>)
    requires IsRun(states, steps)
    ensures Inv(states[|states| - 1])
  {
    hide Inv, Apply, Enabled;
    if steps == [] {
      InitialInv();
    } else {
      var n := |steps| - 1;
      RunKeepsInv(states[..n + 1], steps[..n]);
      StepKeepsInv(states[n], steps[n]);
    }
  }

  lemma InitialInv()
    ensures Inv(Initial)
  {
  }

  /** Once every recording has reached its flow, a node's total is exactly what
      its flows and its untracked flows moved. */
  lemma QuietTotalsAddUp(states: seq<State>, steps: seq<Step>, n: string, d: Direction)
    requires IsRun(states, steps) && states[|states| - 1].pending == []
    ensures var s := states[|states| - 1];
      NodeOf(s, n).bytes.Get(d) == Sum(s.flows, FlowBytes(n, d)) + UntrackedBytesOf(s, n).Get(d)
  {
    RunKeepsInv(states, steps);
    assert Conserved(states[|states| - 1], n, d);
  }

  lemma {:induction false} EntriesStay(states: seq<State>, steps: seq<Step>, i: nat, j: nat, h: nat)
    requires IsRun(states, steps) && i <= j < |states| && IsFlow(states[i], h)
    ensures IsFlow(states[j], h) && states[j].flows[h].id == states[i].flows[h].id
    ensures states[j].flows[h].node == states[i].flows[h].node
    decreases j - i
  {
    hide Apply, Enabled;
    if i < j {
      EntriesStay(states, steps, i, j - 1, h);
      StepKeepsEntries(states[j - 1], steps[j - 1]);
    }
  }

  /** An id is never reused: in every run the id an opening flow is given is one
      no flow has had before, opened or closed since, and it stays that flow's,
      on the same node, however the run goes on. So two openings never share one. */
  lemma IdsAreNeverReused(states: seq<State>, steps: seq<Step>, i: nat, j: nat)
    requires IsRun(states, steps) && i < j < |states| && steps[i].Allot?
    ensures var h, id := |states[i].flows|, states[i].next + 1;
      && (forall k :: 0 <= k < |states[i].flows| ==> states[i].flows[k].id != id)
      && IsFlow(states[j], h) && states[j].flows[h].id == id && states[j].flows[h].node == steps[i].node
    ensures j < |steps| && steps[j].Allot? ==> states[j].next + 1 != states[i].next + 1
  {
    hide Apply, Enabled, Conserved, Counted, Registered, PendingOk;
    RunKeepsInv(states[..i + 1], steps[..i]);
    RunKeepsInv(states[..j + 1], steps[..j]);
    StepKeepsEntries(states[i], steps[i]);
    EntriesStay(states, steps, i + 1, j, |states[i].flows|);
  }

  /** And a flow that has closed is never open or listed again, nor is any other
      flow ever listed under its id. */
  lemma {:induction false} ClosedStaysClosed(states: seq<State>, steps: seq<Step>, i: nat, j: nat, h: nat)
    requires IsRun(states, steps) && i <= j < |states|
    requires IsFlow(states[i], h) && states[i].flows[h].stage.Closed?
    ensures IsFlow(states[j], h) && states[j].flows[h].stage.Closed?
    ensures states[i].flows[h].id !in states[j].registry
    decreases j - i
  {
    hide Apply, Enabled, Conserved, Counted, PendingOk;
    if i < j {
      ClosedStaysClosed(states, steps, i, j - 1, h);
      StepKeepsClosed(states[j - 1], steps[j - 1], h);
    }
    RunKeepsInv(states[..j + 1], steps[..j]);
    EntriesStay(states, steps, i, j, h);
    ClosedIsUnlisted(states[j], h);
  }

  lemma ClosedIsUnlisted(s: State, h: nat)
    requires IdsDistinct(s) && Registered(s) && IsFlow(s, h) && s.flows[h].stage.Closed?
    ensures s.flows[h].id !in s.registry
  {
  }

  lemma StepKeepsClosed(s: State, step: Step, h: nat)
    requires Enabled(s, step) && IsFlow(s, h) && s.flows[h].stage.Closed?
    ensures IsFlow(Apply(s, step), h) && Apply(s, step).flows[h].stage.Closed?
  {
  }
}
