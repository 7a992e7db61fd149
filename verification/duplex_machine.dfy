/**
 The duplex session machine: one slot shared by callback input and staged
 output, eleven phases, three flags. Session callbacks and carrier decisions
 are arbitrary arguments of each transaction.
 */
module DuplexMachine {
  import opened Common

  type Quantum = b: Bytes | b != [] witness [0]

  datatype Directive = Wait | Activate | FinishOutput | FinishSession

  datatype Resume = ToIdle | ToTurn

  datatype Phase =
    | Idle | Turn | Finished
    | WaitStaged | ActivateStaged | FinishOutputStaged | FinishSessionStaged
    | QueuedWait | QueuedActivate | QueuedFinishOutput | QueuedFinishSession

  datatype Staged = Staged(directive: Directive, resume: Resume)

  function ActionOf(p: Phase): Option<Staged> {
    match p
    case WaitStaged => Some(Staged(Wait, ToIdle))
    case ActivateStaged => Some(Staged(Activate, ToIdle))
    case FinishOutputStaged => Some(Staged(FinishOutput, ToIdle))
    case FinishSessionStaged => Some(Staged(FinishSession, ToIdle))
    case QueuedWait => Some(Staged(Wait, ToTurn))
    case QueuedActivate => Some(Staged(Activate, ToTurn))
    case QueuedFinishOutput => Some(Staged(FinishOutput, ToTurn))
    case QueuedFinishSession => Some(Staged(FinishSession, ToTurn))
    case _ => None
  }

  function FromAction(d: Directive, r: Resume): (p: Phase)
    ensures ActionOf(p) == Some(Staged(d, r))
  {
    match (d, r)
    case (Wait, ToIdle) => WaitStaged
    case (Activate, ToIdle) => ActivateStaged
    case (FinishOutput, ToIdle) => FinishOutputStaged
    case (FinishSession, ToIdle) => FinishSessionStaged
    case (Wait, ToTurn) => QueuedWait
    case (Activate, ToTurn) => QueuedActivate
    case (FinishOutput, ToTurn) => QueuedFinishOutput
    case (FinishSession, ToTurn) => QueuedFinishSession
  }

  /** INPUT_FINISH_PENDING, INPUT_FINISH_HELD and INITIAL_ACTIVATION. */
  datatype Flags = Flags(finPending: bool, finHeld: bool, initial: bool)

  const NoFlags := Flags(false, false, false)
  const HeldOnly := Flags(false, true, false)

  datatype Output = Open | Closed

  /** Progress of the machine, and its projection after a commit. */
  datatype Progress = AtRest | Runnable | Ended

  datatype End = EndOpen | EndOutput | EndSession

  datatype Next = Next(settled: Progress, flags: Flags, output: Output) {
    function After(): Progress {
      if settled == AtRest && flags.finPending then Runnable else settled
    }
  }

  function Resumed(r: Resume): Progress {
    if r == ToIdle then AtRest else Runnable
  }

  function Reduce(flags: Flags, output: Output, staged: Staged): Next {
    match staged.directive
    case Wait => Next(Resumed(staged.resume), flags, output)
    case Activate => Next(Runnable, flags, output)
    case FinishOutput =>
      if flags == HeldOnly then Next(Ended, NoFlags, Closed)
      else Next(Resumed(staged.resume), flags, Closed)
    case FinishSession => Next(Ended, NoFlags, Closed)
  }

  /** What one session callback returns: bytes written, output, directive. */
  datatype Reply = Reply(written: nat, output: Option<Bytes>, directive: Directive)

  datatype Call = Receive(input: Bytes) | Activated | Finish

  /** The carrier's decisions, one for each kind of payload it may be shown. */
  datatype Carrier = Carrier(present: PresentDecision, vacant: VacantDecision)

  datatype PresentDecision = CommitPresent | Keep(rest: Quantum) | Return

  datatype VacantDecision = CommitVacant | Block | Reject

  datatype Emission = Emission(written: nat, payload: Option<Quantum>, end: End, after: Progress)

  datatype Violation = OutputAfterFinish | PrefixCapacity(written: nat, capacity: nat) | PrefixPending

  datatype Result = NoWork | Committed(after: Progress) | Pending | Rejected | Violated(v: Violation)

  // ------------------------------------------------------- the value

  datatype State = State(pending: Option<Quantum>, phase: Phase, flags: Flags, output: Output) {
    function Progress(): Progress {
      if pending.Some? || flags.finPending then Runnable
      else if phase == Idle then AtRest
      else if phase == Finished then Ended
      else Runnable
    }

    predicate Vacant() {
      pending.None? && (phase == Idle || phase == Turn)
    }

    predicate FinishRefused() {
      Progress() == Ended || flags.finPending || flags.finHeld
    }

    function WithFinish(): State {
      this.(flags := flags.(finPending := true, finHeld := true))
    }
  }

  const New := State(None, Turn, Flags(false, false, true), Open)
  const Terminated := State(None, Finished, NoFlags, Closed)

  /** One transaction: the state after it and everything it did outside. */
  datatype Turn = Taken(state: State, result: Result, call: Option<Call>, offered: Option<Emission>)

  function Filled(b: Option<Bytes>): Option<Quantum> {
    if b.Some? && b.value != [] then Some(b.value) else None
  }

  /** The callback that runs when nothing is staged, if any. */
  function CallOf(m: State): Option<Call> {
    if m.pending.Some? then Some(Receive(m.pending.value))
    else if m.phase == Phase.Turn && (!m.flags.finPending || m.flags.initial) then Some(Activated)
    else if m.flags.finPending then Some(Finish)
    else None
  }

  /** The machine once the callback returned and its action is staged. */
  function Called(m: State, call: Call, reply: Reply): State {
    var turn := m.phase == Phase.Turn;
    var activate := turn && (!m.flags.finPending || m.flags.initial);
    var resume := if turn && (m.pending.Some? || !activate) then ToTurn else ToIdle;
    State(Filled(reply.output), FromAction(reply.directive, resume),
          match call
          case Receive(_) => m.flags
          case Activated => m.flags.(initial := false)
          case Finish => m.flags.(finPending := false),
          m.output)
  }

  function EndOf(output: Output, d: Directive): End {
    if output == Closed || d == Wait || d == Activate then EndOpen
    else if d == FinishOutput then EndOutput
    else EndSession
  }

  function Settle(p: Progress): Phase {
    match p
    case AtRest => Idle
    case Runnable => Phase.Turn
    case Ended => Finished
  }

  /** Offers what is staged to the carrier and applies its decision. */
  function Offer(m: State, staged: Staged, written: nat, capacity: nat, call: Option<Call>, carrier: Carrier): Turn {
    if written > capacity then Taken(Terminated, Violated(PrefixCapacity(written, capacity)), call, None)
    else if m.output == Closed && (written != 0 || m.pending.Some?) then
      Taken(Terminated, Violated(Violation.OutputAfterFinish), call, None)
    else
      var next := Reduce(m.flags, m.output, staged);
      var shown := Some(Emission(written, m.pending, EndOf(m.output, staged.directive), next.After()));
      var committed :=
        Taken(State(None, Settle(next.settled), next.flags, next.output), Committed(next.After()), call, shown);
      if m.pending.Some? then
        match carrier.present
        case CommitPresent => committed
        case Keep(rest) =>
          if written != 0 then Taken(Terminated, Violated(Violation.PrefixPending), call, shown)
          else Taken(m.(pending := Some(rest)), Pending, call, shown)
        case Return => Taken(Terminated, Rejected, call, shown)
      else
        match carrier.vacant
        case CommitVacant => committed
        case Block =>
          if written != 0 then Taken(Terminated, Violated(Violation.PrefixPending), call, shown)
          else Taken(m, Pending, call, shown)
        case Reject => Taken(Terminated, Rejected, call, shown)
  }

  function Step(m: State, capacity: nat, reply: Reply, carrier: Carrier): Turn {
    match ActionOf(m.phase)
    case Some(staged) => Offer(m, staged, 0, capacity, None, carrier)
    case None =>
      match CallOf(m)
      case None => Taken(m, NoWork, None, None)
      case Some(call) =>
        var called := Called(m, call, reply);
        Offer(called, ActionOf(called.phase).value, reply.written, capacity, Some(call), carrier)
  }

  // ------------------------------------------------------- the object

  class Machine {
    var pending: Option<Quantum>
    var phase: Phase
    var flags: Flags
    var output: Output

    constructor ()
      ensures Abs() == New
    {
      pending, phase, flags, output := None, Phase.Turn, Flags(false, false, true), Open;
    }

    constructor WithFinish()
      ensures Abs() == New.WithFinish()
    {
      pending, phase, flags, output := None, Phase.Turn, Flags(true, true, true), Open;
    }

    function Abs(): State
      reads this
    {
      State(pending, phase, flags, output)
    }

    /** Commits one input into the vacant slot; an empty one leaves it vacant. */
    method CommitInput(input: Bytes)
      requires Abs().Vacant()
      modifies this`pending
      ensures Abs() == old(Abs()).(pending := Filled(Some(input)))
    {
      if input != [] {
        pending := Some(input);
      }
    }

    method CommitFinish()
      requires !Abs().FinishRefused()
      modifies this`flags
      ensures Abs() == old(Abs()).WithFinish()
    {
      flags := flags.(finPending := true, finHeld := true);
    }

    method Terminate()
      modifies this
      ensures Abs() == Terminated
    {
      pending, phase, flags, output := None, Finished, NoFlags, Closed;
    }

    method Retire()
      modifies this
      ensures Abs() == if old(phase) == Finished then old(Abs()) else Terminated
    {
      if phase == Finished {
        return;
      }
      Terminate();
    }

    /** At most one callback, then one admission attempt. */
    method Transact(capacity: nat, reply: Reply, carrier: Carrier)
      returns (result: Result, call: Option<Call>, offered: Option<Emission>)
      modifies this
      ensures Taken(Abs(), result, call, offered) == Step(old(Abs()), capacity, reply, carrier)
    {
      call, offered := None, None;
      var staged, written;
      var action := ActionOf(phase);
      if action.Some? {
        staged, written := action.value, 0;
      } else {
        var turn, finish := phase == Phase.Turn, flags.finPending;
        if pending.None? && !turn && !finish {
          return NoWork, None, None;
        }
        var activate := turn && (!finish || flags.initial);
        var resume := if turn && (pending.Some? || !activate) then ToTurn else ToIdle;
        if pending.Some? {
          call := Some(Receive(pending.value));
        } else if activate {
          flags := flags.(initial := false);
          call := Some(Activated);
        } else {
          flags := flags.(finPending := false);
          call := Some(Finish);
        }
        pending := Filled(reply.output);
        phase := FromAction(reply.directive, resume);
        staged, written := Staged(reply.directive, resume), reply.written;
      }
      result, offered := Present(staged, written, capacity, call, carrier);
    }

    /** The admission half: offers what is staged and settles on the carrier's decision. */
    method Present(staged: Staged, written: nat, capacity: nat, ghost call: Option<Call>, carrier: Carrier)
      returns (result: Result, offered: Option<Emission>)
      modifies this
      ensures Taken(Abs(), result, call, offered) == Offer(old(Abs()), staged, written, capacity, call, carrier)
    {
      if written > capacity {
        Terminate();
        return Violated(PrefixCapacity(written, capacity)), None;
      }
      if output == Closed && (written != 0 || pending.Some?) {
        Terminate();
        return Violated(Violation.OutputAfterFinish), None;
      }
      var next := Reduce(flags, output, staged);
      var payload := pending;
      offered := Some(Emission(written, payload, EndOf(output, staged.directive), next.After()));
      pending := None;
      var held := if payload.Some? then carrier.present.Keep? else carrier.vacant.Block?;
      if held && written != 0 {
        Terminate();
        return Violated(Violation.PrefixPending), offered;
      }
      if held {
        pending := if payload.Some? then Some(carrier.present.rest) else None;
        return Pending, offered;
      }
      var refused := if payload.Some? then carrier.present.Return? else carrier.vacant.Reject?;
      if refused {
        Terminate();
        return Rejected, offered;
      }
      phase, flags, output := Settle(next.settled), next.flags, next.output;
      return Committed(next.After()), offered;
    }
  }
}
