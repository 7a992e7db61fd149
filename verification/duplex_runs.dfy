/** Whole runs of the duplex machine: closing is final and scheduling is exact. */
module DuplexRuns {
  import opened Common
  import opened DuplexMachine

  /** What the phases, flags, slot and output always keep jointly. */
  ghost predicate Coherent(m: State) {
    && (m.phase == Finished ==> m == Terminated)
    && (m.flags.initial ==> Owed(m))
    && (m.flags.finPending ==> m.flags.finHeld)
  }

  /** An activation is queued, requested or due. */
  predicate Owed(m: State) {
    m.phase == Phase.Turn || m.phase == ActivateStaged ||
    m.phase == QueuedWait || m.phase == QueuedActivate ||
    m.phase == QueuedFinishOutput || m.phase == QueuedFinishSession
  }

  /** How an offer can leave the machine that staged it. */
  ghost predicate Outcome(m: State, staged: Staged, t: Turn) {
    || t.state == Terminated
    || (t.result == Pending && t.state.(pending := m.pending) == m && (t.state.pending.Some? <==> m.pending.Some?))
    || (t.result.Committed? && t.state.pending.None? && t.state.flags == m.flags
        && t.state.phase == if staged.directive == Activate || staged.resume == ToTurn then Phase.Turn else Idle)
  }

  /** How a transaction relates the states before and after it. */
  ghost predicate Shape(m: State, reply: Reply, t: Turn) {
    match ActionOf(m.phase)
    case Some(staged) => t.call == None && Outcome(m, staged, t)
    case None =>
      t.call == CallOf(m)
      && match t.call
         case None => t.state == m && t.result == NoWork
         case Some(call) =>
           var called := Called(m, call, reply);
           Outcome(called, ActionOf(called.phase).value, t)
  }

  lemma StepHasShape(m: State, capacity: nat, reply: Reply, carrier: Carrier)
    requires Coherent(m)
    ensures Shape(m, reply, Step(m, capacity, reply, carrier))
  {
  }

  lemma OfferCoherent(m: State, staged: Staged, written: nat, capacity: nat, call: Option<Call>, carrier: Carrier)
    requires Coherent(m) && ActionOf(m.phase) == Some(staged)
    ensures Coherent(Offer(m, staged, written, capacity, call, carrier).state)
  {
  }

  lemma CalledCoherent(m: State, call: Call, reply: Reply)
    requires Coherent(m) && ActionOf(m.phase) == None && CallOf(m) == Some(call)
    ensures Coherent(Called(m, call, reply))
  {
  }

  lemma StepCoherent(m: State, capacity: nat, reply: Reply, carrier: Carrier)
    requires Coherent(m)
    ensures Coherent(Step(m, capacity, reply, carrier).state)
  {
    hide Offer, Called, CallOf, Coherent;
    var staged := ActionOf(m.phase);
    if staged.Some? {
      OfferCoherent(m, staged.value, 0, capacity, None, carrier);
    } else if CallOf(m).Some? {
      var call := CallOf(m).value;
      CalledCoherent(m, call, reply);
      var called := Called(m, call, reply);
      CalledIsStaged(m, call, reply);
      OfferCoherent(called, ActionOf(called.phase).value, reply.written, capacity, Some(call), carrier);
    }
  }

  lemma CalledIsStaged(m: State, call: Call, reply: Reply)
    ensures ActionOf(Called(m, call, reply).phase).Some?
  {
  }

  /** A finished machine has released everything and absorbs every transaction. */
  lemma FinishedAbsorbs(m: State, capacity: nat, reply: Reply, carrier: Carrier)
    requires Coherent(m) && m.Progress() == Ended
    ensures m == Terminated
    ensures Step(m, capacity, reply, carrier) == Taken(m, NoWork, None, None)
  {
  }

  /** What a staged machine shows, and where it then stands. */
  ghost predicate Projects(t: Turn) {
    && (t.result.Committed? ==>
          && t.offered.Some? && t.offered.value.after == t.result.after == t.state.Progress()
          && t.state.pending.None?)
    && t.result != NoWork
    && (t.result.Pending? ==> t.state.Progress() == Runnable)
    && (t.result.Rejected? || t.result.Violated? ==> t.state == Terminated)
  }

  lemma OfferProjects(m: State, staged: Staged, written: nat, capacity: nat, call: Option<Call>, carrier: Carrier)
    requires ActionOf(m.phase) == Some(staged)
    ensures Projects(Offer(m, staged, written, capacity, call, carrier))
  {
  }

  /** The projection shown to the carrier is the progress of the committed state. */
  lemma ProjectionIsExact(m: State, capacity: nat, reply: Reply, carrier: Carrier)
    requires Coherent(m)
    ensures var t := Step(m, capacity, reply, carrier);
            && (t.result.Committed? ==>
                  && t.offered.Some? && t.offered.value.after == t.result.after == t.state.Progress()
                  && t.state.pending.None?)
            && (t.result == NoWork <==> m.Progress() != Runnable)
            && (t.result.Pending? ==> t.state.Progress() == Runnable)
            && (t.result.Rejected? || t.result.Violated? ==> t.state == Terminated)
  {
    hide Offer, Called;
    var staged := ActionOf(m.phase);
    if staged.Some? {
      OfferProjects(m, staged.value, 0, capacity, None, carrier);
    } else if CallOf(m).Some? {
      var call := CallOf(m).value;
      var called := Called(m, call, reply);
      CalledIsStaged(m, call, reply);
      OfferProjects(called, ActionOf(called.phase).value, reply.written, capacity, Some(call), carrier);
    }
  }

  // ------------------------------------------------------- machine runs

  datatype Op =
    | Input(input: Bytes)        // committed when the slot is vacant
    | PeerFinish                 // committed when not refused
    | Transaction(capacity: nat, reply: Reply, carrier: Carrier)
    | Retire

  /** Callbacks that ran and emissions the carrier committed, oldest first. */
  datatype History = History(calls: seq<Call>, commits: seq<Emission>)

  /** `due` says an activation was requested since the last one that ran. */
  datatype Run = Run(machine: State, history: History, due: bool)

  function Due(before: bool, t: Turn, reply: Reply): bool {
    if t.call.None? then before
    else reply.directive == Activate || (before && t.call != Some(Activated))
  }

  function Record(h: History, t: Turn): History {
    History(if t.call.Some? then h.calls + [t.call.value] else h.calls,
            if t.result.Committed? && t.offered.Some? then h.commits + [t.offered.value] else h.commits)
  }

  function RunStep(r: Run, op: Op): Run {
    match op
    case Input(input) =>
      if r.machine.Vacant() then r.(machine := r.machine.(pending := Filled(Some(input)))) else r
    case PeerFinish => if r.machine.FinishRefused() then r else r.(machine := r.machine.WithFinish())
    case Transaction(capacity, reply, carrier) =>
      var t := Step(r.machine, capacity, reply, carrier);
      Run(t.state, Record(r.history, t), Due(r.due, t, reply))
    case Retire => if r.machine.phase == Finished then r else r.(machine := Terminated)
  }

  function RunAll(r: Run, ops: seq<Op>): Run
    decreases ops
  {
    if ops == [] then r else RunAll(RunStep(r, ops[0]), ops[1..])
  }

  const Begun := Run(New, History([], []), true)

  ghost predicate Silent(e: Emission) {
    e.end == EndOpen && e.written == 0 && e.payload.None?
  }

  /** At most one commit closes the output, and only silent ones follow it. */
  ghost predicate ClosedOnce(r: Run) {
    && (forall i, j :: 0 <= i < j < |r.history.commits| && r.history.commits[i].end != EndOpen ==>
          Silent(r.history.commits[j]))
    && ((exists i :: 0 <= i < |r.history.commits| && r.history.commits[i].end != EndOpen) ==>
          r.machine.output == Closed)
  }

  /** Closing emissions only leave an open output, and leave it closed. */
  lemma CommitFacts(m: State, capacity: nat, reply: Reply, carrier: Carrier)
    requires Coherent(m)
    ensures var t := Step(m, capacity, reply, carrier);
            && (m.output == Closed ==> t.state.output == Closed)
            && (t.result.Committed? ==> t.offered.Some?)
            && (t.result.Committed? && m.output == Closed ==> Silent(t.offered.value))
            && (t.result.Committed? && t.offered.value.end != EndOpen ==> t.state.output == Closed)
  {
  }

  lemma StepClosesOnce(r: Run, op: Op)
    requires Coherent(r.machine) && ClosedOnce(r)
    ensures Coherent(RunStep(r, op).machine) && ClosedOnce(RunStep(r, op))
  {
    match op {
      case Transaction(capacity, reply, carrier) =>
        StepCoherent(r.machine, capacity, reply, carrier);
        CommitFacts(r.machine, capacity, reply, carrier);
        RecordClosesOnce(r, Step(r.machine, capacity, reply, carrier));
      case _ =>
    }
  }

  lemma RecordClosesOnce(r: Run, t: Turn)
    requires ClosedOnce(r)
    requires r.machine.output == Closed ==> t.state.output == Closed
    requires t.result.Committed? ==> t.offered.Some?
    requires t.result.Committed? && r.machine.output == Closed ==> Silent(t.offered.value)
    requires t.result.Committed? && t.offered.value.end != EndOpen ==> t.state.output == Closed
    ensures forall due :: ClosedOnce(Run(t.state, Record(r.history, t), due))
  {
    var n := |r.history.commits|;
    var after := Record(r.history, t).commits;
    assert forall i :: 0 <= i < n ==> after[i] == r.history.commits[i];
  }

  /**
   In every run the output is closed by at most one committed emission, nothing
   is committed to the output after it, and an ended machine has an empty slot
   and no flags.
   */
  lemma {:induction false} ClosingIsFinal(r: Run, ops: seq<Op>)
    requires Coherent(r.machine) && ClosedOnce(r)
    ensures var end := RunAll(r, ops);
            && ClosedOnce(end)
            && Coherent(end.machine)
            && (end.machine.Progress() == Ended ==> end.machine == Terminated)
    decreases ops
  {
    if ops != [] {
      StepClosesOnce(r, ops[0]);
      ClosingIsFinal(RunStep(r, ops[0]), ops[1..]);
    }
  }

  /** Until the session ends, an activation is due exactly when the phase still owes one. */
  ghost predicate DueIsOwed(r: Run) {
    r.machine == Terminated || (r.due <==> Owed(r.machine))
  }

  lemma ShapeKeepsDue(m: State, due: bool, reply: Reply, t: Turn)
    requires Coherent(m) && Shape(m, reply, t) && (m == Terminated || (due <==> Owed(m)))
    ensures t.state == Terminated || (Due(due, t, reply) <==> Owed(t.state))
  {
  }

  lemma {:induction false} ActivationIsNotLost(r: Run, ops: seq<Op>)
    requires Coherent(r.machine) && ClosedOnce(r) && DueIsOwed(r)
    ensures DueIsOwed(RunAll(r, ops))
    decreases ops
  {
    if ops != [] {
      var op := ops[0];
      if op.Transaction? {
        StepHasShape(r.machine, op.capacity, op.reply, op.carrier);
        ShapeKeepsDue(r.machine, r.due, op.reply, Step(r.machine, op.capacity, op.reply, op.carrier));
      }
      StepClosesOnce(r, op);
      ActivationIsNotLost(RunStep(r, op), ops[1..]);
    }
  }

  /** Both guarantees for every run of a machine opened either way. */
  lemma RunsFromStart(ops: seq<Op>, finished: bool)
    ensures var end := RunAll(if finished then Begun.(machine := New.WithFinish()) else Begun, ops);
            && ClosedOnce(end)
            && DueIsOwed(end)
            && (end.machine.Progress() == Ended ==> end.machine == Terminated)
  {
    var begun := if finished then Begun.(machine := New.WithFinish()) else Begun;
    ClosingIsFinal(begun, ops);
    ActivationIsNotLost(begun, ops);
  }
}
