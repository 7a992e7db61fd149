/** A duplex session fronted by its carrier queue: input order and the peer's FIN. */
module DuplexInput {
  import opened Common
  import opened DuplexMachine
  import opened DuplexRuns

  datatype Direction = Receiving | Finishing | Shut

  /** The machine, the queued quanta, and the direction's phase. */
  datatype Link = Link(raw: State, buffer: seq<Bytes>, direction: Direction) {
    predicate IsOpen() {
      direction == Receiving && raw.Progress() != Ended
    }

    predicate Ready() {
      match raw.Progress()
      case Ended => false
      case AtRest => buffer != [] && direction != Shut
      case Runnable => true
    }

    /** The machine with FIN recorded; the direction shuts once the queue is empty. */
    function Finished(): Link {
      Link(raw.WithFinish(), buffer, if buffer == [] then Shut else Finishing)
    }
  }

  function OpenFinished(buffer: seq<Bytes>): Link {
    Link(New.WithFinish(), buffer, Finishing)
  }

  datatype PushResult = Accepted | LateInput | RefusedFinish(closed: bool) | BufferFull

  /** The carrier buffer keeps every non-empty input, in order. */
  function Enqueue(buffer: seq<Bytes>, input: Bytes): seq<Bytes> {
    if input == [] then buffer else buffer + [input]
  }

  function PushLink(s: Link, input: Bytes, end: bool, fits: bool): (Link, PushResult) {
    if !s.IsOpen() then (s, LateInput)
    else if end && s.raw.FinishRefused() then (s, RefusedFinish(s.raw.Progress() == Ended))
    else if !fits then (s, BufferFull)
    else
      var queued := s.(buffer := Enqueue(s.buffer, input));
      (if end then queued.Finished() else queued, Accepted)
  }

  datatype FinishResult = FinishAccepted | FinishError(closed: bool)

  function FinishLink(s: Link): (Link, FinishResult) {
    match s.direction
    case Receiving =>
      if s.raw.FinishRefused() then (s, FinishError(s.raw.Progress() == Ended)) else (s.Finished(), FinishAccepted)
    case Finishing => (s, FinishError(false))
    case Shut => (s, FinishError(true))
  }

  /** Moves at most one quantum into a vacant slot. */
  function FeedLink(s: Link): (Link, Option<Bytes>) {
    if s.direction == Shut || s.raw.Progress() == Ended || !s.raw.Vacant() || s.buffer == [] then (s, None)
    else
      var rest := s.buffer[1..];
      (Link(s.raw.(pending := Filled(Some(s.buffer[0]))), rest,
            if s.direction == Finishing && rest == [] then Shut else s.direction),
       Some(s.buffer[0]))
  }

  datatype LinkTurn = LinkTurn(link: Link, turn: Turn, fed: Option<Bytes>)

  function TransactLink(s: Link, reply: Reply, carrier: Carrier): LinkTurn {
    var (fed, item) := FeedLink(s);
    var t := Step(fed.raw, 0, reply, carrier);
    LinkTurn(fed.(raw := t.state), t, item)
  }

  /** When a push is accepted, which refusal it gets otherwise, and what either leaves. */
  lemma PushAnswers(s: Link, input: Bytes, end: bool, fits: bool)
    requires Coherent(s.raw)
    ensures var (after, result) := PushLink(s, input, end, fits);
            var late := s.direction != Receiving || s.raw == Terminated;
            var twice := end && (s.raw.flags.finPending || s.raw.flags.finHeld);
            && (result == LateInput <==> late)
            && (result == RefusedFinish(false) <==> !late && twice)
            && (result == BufferFull <==> !late && !twice && !fits)
            && (result == Accepted <==> !late && !twice && fits)
            && (result != Accepted ==> after == s)
            && (result == Accepted ==>
                  && after.buffer == s.buffer + (if input == [] then [] else [input])
                  && after.raw.(flags := s.raw.flags) == s.raw
                  && after.raw.flags == (if end then Flags(true, true, s.raw.flags.initial) else s.raw.flags)
                  && (after.direction == Receiving <==> !end)
                  && (after.direction == Shut <==> end && after.buffer == []))
  {
  }

  /** A separate FIN is accepted once, on a live receiving session. */
  lemma FinishAnswers(s: Link)
    requires Coherent(s.raw)
    ensures var (after, result) := FinishLink(s);
            var held := s.raw.flags.finPending || s.raw.flags.finHeld;
            && (result == FinishAccepted <==> s.direction == Receiving && s.raw != Terminated && !held)
            && (result == FinishError(true) <==>
                  s.direction == Shut || (s.direction == Receiving && s.raw == Terminated))
            && (result != FinishAccepted ==> after == s)
            && (result == FinishAccepted ==>
                  && after.buffer == s.buffer
                  && after.raw == s.raw.(flags := Flags(true, true, s.raw.flags.initial))
                  && after.direction != Receiving && (after.direction == Shut <==> s.buffer == []))
  {
  }

  /** The head quantum moves exactly into a vacant slot of a live session whose direction is not
      shut, and the last one of a finished direction shuts it. */
  lemma FeedsExactly(s: Link)
    requires Coherent(s.raw)
    ensures var (after, fed) := FeedLink(s);
            && (fed.Some? <==>
                  && s.direction != Shut && s.buffer != []
                  && s.raw.pending == None && (s.raw.phase == Idle || s.raw.phase == Phase.Turn))
            && (fed.None? ==> after == s)
            && (fed.Some? ==>
                  && [fed.value] + after.buffer == s.buffer
                  && after.raw.(pending := None) == s.raw
                  && (match after.raw.pending case None => fed.value == [] case Some(input) => fed.value == input)
                  && after.direction == if s.direction == Finishing && |s.buffer| == 1 then Shut else s.direction)
  {
  }

  // ------------------------------------------------------- scheduling

  /**
   `work` is ready exactly when the next transaction does something, except that
   a resting session fed an empty quantum consumes it and does nothing.
   */
  lemma WorkIsExact(s: Link, reply: Reply, carrier: Carrier)
    requires Coherent(s.raw)
    ensures var idle := TransactLink(s, reply, carrier).turn.result == NoWork;
            && (!s.Ready() ==> idle)
            && (s.Ready() && idle <==>
                  s.raw.Progress() == AtRest && s.direction != Shut && s.buffer != [] && s.buffer[0] == [])
  {
  }

  // ------------------------------------------------------- runs

  datatype LinkOp =
    | Pushed(input: Bytes, end: bool, fits: bool)
    | Fin
    | Turned(reply: Reply, carrier: Carrier)

  /** A run: the link, the quanta queued so far, and the callbacks that ran. */
  datatype Trace = Trace(link: Link, pushed: seq<Bytes>, calls: seq<Call>)

  function TraceStep(r: Trace, op: LinkOp): Trace {
    match op
    case Pushed(input, end, fits) =>
      var (link, result) := PushLink(r.link, input, end, fits);
      Trace(link, if result == Accepted then Enqueue(r.pushed, input) else r.pushed, r.calls)
    case Fin => r.(link := FinishLink(r.link).0)
    case Turned(reply, carrier) =>
      var t := TransactLink(r.link, reply, carrier);
      Trace(t.link, r.pushed, Appended(r.calls, t.turn.call))
  }

  function TraceAll(r: Trace, ops: seq<LinkOp>): Trace
    decreases ops
  {
    if ops == [] then r else TraceAll(TraceStep(r, ops[0]), ops[1..])
  }

  /** What a push was answered, for the operations that push. */
  function Answer(s: Link, op: LinkOp): Option<PushResult> {
    if op.Pushed? then Some(PushLink(s, op.input, op.end, op.fits).1) else None
  }

  function Answers(r: Trace, ops: seq<LinkOp>): (answers: seq<Option<PushResult>>)
    ensures |answers| == |ops|
    decreases ops
  {
    if ops == [] then [] else [Answer(r.link, ops[0])] + Answers(TraceStep(r, ops[0]), ops[1..])
  }

  /** The non-empty inputs of the pushes that were answered `Accepted`, in order. */
  function AcceptedInputs(ops: seq<LinkOp>, answers: seq<Option<PushResult>>): seq<Bytes>
    requires |answers| == |ops|
    decreases ops
  {
    if ops == [] then []
    else
      var rest := AcceptedInputs(ops[1..], answers[1..]);
      if ops[0].Pushed? && answers[0] == Some(Accepted) && ops[0].input != [] then [ops[0].input] + rest else rest
  }

  /** What a run queues is what the caller pushed and saw accepted. */
  lemma {:induction false} PushedIsAccepted(r: Trace, ops: seq<LinkOp>)
    ensures TraceAll(r, ops).pushed == r.pushed + AcceptedInputs(ops, Answers(r, ops))
    decreases ops
  {
    if ops != [] {
      var op, next := ops[0], TraceStep(r, ops[0]);
      PushedIsAccepted(next, ops[1..]);
      var rest := AcceptedInputs(ops[1..], Answers(next, ops[1..]));
      assert Answers(r, ops)[1..] == Answers(next, ops[1..]);
      if op.Pushed? && Answer(r.link, op) == Some(Accepted) && op.input != [] {
        assert next.pushed == r.pushed + [op.input];
        assert r.pushed + [op.input] + rest == r.pushed + ([op.input] + rest);
      } else {
        assert next.pushed == r.pushed;
      }
    }
  }

  /** The inputs given to `receive`, in order. */
  function Received(calls: seq<Call>): seq<Bytes> {
    if calls == [] then []
    else
      var k := |calls| - 1;
      Received(calls[..k]) + if calls[k].Receive? then [calls[k].input] else []
  }

  lemma ReceivedPush(calls: seq<Call>, call: Call)
    ensures Received(calls + [call]) == Received(calls) + if call.Receive? then [call.input] else []
  {
    assert (calls + [call])[..|calls|] == calls;
  }

  ghost predicate NonEmptyQuanta(buffer: seq<Bytes>) {
    forall q :: q in buffer ==> q != []
  }

  /** FIN is observed at most once, after the first activation and every quantum. */
  ghost predicate FinOnce(calls: seq<Call>, pushed: seq<Bytes>) {
    forall i :: 0 <= i < |calls| && calls[i] == Finish ==>
      && Activated in calls[..i]
      && Received(calls[..i]) == pushed
      && forall j :: i < j < |calls| ==> calls[j] == Activated
  }

  ghost predicate Ordered(r: Trace) {
    var Link(raw, buffer, direction) := r.link;
    && Coherent(raw)
    && NonEmptyQuanta(buffer)
    && (raw.phase == Idle || raw.phase == Phase.Turn ==> raw.pending.None?)
    && (direction == Shut ==> buffer == [])
    && (direction == Receiving ==> !raw.flags.finHeld)
    && (if raw == Terminated then Received(r.calls) <= r.pushed
        else Received(r.calls) + buffer == r.pushed
             && (raw.flags.initial || Activated in r.calls)
             && (direction != Receiving ==> raw.flags.finHeld && (raw.flags.finPending || Finish in r.calls)))
    && (Finish in r.calls ==>
          direction != Receiving && !raw.flags.finPending && buffer == [] && Received(r.calls) == r.pushed)
    && FinOnce(r.calls, r.pushed)
  }

  lemma PushOrdered(r: Trace, op: LinkOp)
    requires Ordered(r) && !op.Turned?
    ensures Ordered(TraceStep(r, op))
  {
    if op.Pushed? && op.input != [] {
      assert Received(r.calls) + (r.link.buffer + [op.input]) == Received(r.calls) + r.link.buffer + [op.input];
    }
  }

  /** One transaction seen from the queue: what was fed, called and left behind. */
  ghost predicate Served(s: Link, link: Link, call: Option<Call>) {
    && (link.raw.phase == Idle || link.raw.phase == Phase.Turn ==> link.raw.pending.None?)
    && (call.Some? && call.value.Receive? ==>
          s.buffer != [] && call.value.input == s.buffer[0] && link.buffer == s.buffer[1..])
    && (call.None? || !call.value.Receive? ==> link.buffer == s.buffer)
    && (call == Some(Finish) ==> s.buffer == [] && s.raw.flags.finPending && !s.raw.flags.initial)
    && (link.direction == Shut ==> link.buffer == [])
    && (link.direction == Receiving <==> s.direction == Receiving)
    && (s.raw == Terminated ==> call == None)
    && (link.raw != Terminated ==>
          && s.raw != Terminated
          && link.raw.flags.finHeld == s.raw.flags.finHeld
          && link.raw.flags.finPending == (s.raw.flags.finPending && call != Some(Finish))
          && link.raw.flags.initial == (s.raw.flags.initial && call != Some(Activated)))
  }

  lemma ShapeServes(s: Link, reply: Reply, t: Turn)
    requires Coherent(s.raw) && NonEmptyQuanta(s.buffer)
    requires s.raw.phase == Idle || s.raw.phase == Phase.Turn ==> s.raw.pending.None?
    requires s.direction == Shut ==> s.buffer == []
    requires Shape(FeedLink(s).0.raw, reply, t)
    ensures Served(s, FeedLink(s).0.(raw := t.state), t.call)
  {
    if s.buffer != [] {
      assert s.buffer[0] in s.buffer;
    }
  }

  lemma FinOncePush(calls: seq<Call>, pushed: seq<Bytes>, call: Call)
    requires FinOnce(calls, pushed)
    requires call == Finish ==> Activated in calls && Received(calls) == pushed
    requires Finish in calls ==> call == Activated
    ensures FinOnce(calls + [call], pushed)
  {
    var next := calls + [call];
    forall i | 0 <= i < |next| && next[i] == Finish
      ensures Activated in next[..i] && Received(next[..i]) == pushed
      ensures forall j :: i < j < |next| ==> next[j] == Activated
    {
      assert i < |calls| ==> calls[i] == Finish && next[..i] == calls[..i];
      assert next[..|calls|] == calls;
    }
  }

  function Appended(calls: seq<Call>, call: Option<Call>): seq<Call> {
    if call.Some? then calls + [call.value] else calls
  }

  lemma ServedQueue(r: Trace, link: Link, call: Option<Call>)
    requires Ordered(r) && Served(r.link, link, call)
    ensures var next := Appended(r.calls, call);
            && (link.raw == Terminated ==> Received(next) <= r.pushed)
            && (link.raw != Terminated ==> Received(next) + link.buffer == r.pushed)
            && (Finish in next ==> link.buffer == [] && Received(next) == r.pushed)
            && FinOnce(next, r.pushed)
  {
    if call.Some? {
      ReceivedPush(r.calls, call.value);
      if call.value.Receive? {
        assert Received(r.calls) + [call.value.input] + r.link.buffer[1..] == Received(r.calls) + r.link.buffer;
      }
      assert Received(r.calls) + [] == Received(r.calls);
      FinOncePush(r.calls, r.pushed, call.value);
    }
  }

  lemma ServedOrdered(r: Trace, link: Link, call: Option<Call>)
    requires Ordered(r) && Coherent(link.raw) && Served(r.link, link, call)
    ensures Ordered(Trace(link, r.pushed, Appended(r.calls, call)))
  {
    assert forall q :: q in link.buffer ==> q in r.link.buffer;
    ServedQueue(r, link, call);
  }

  lemma TurnOrdered(r: Trace, reply: Reply, carrier: Carrier)
    requires Ordered(r)
    ensures Ordered(TraceStep(r, Turned(reply, carrier)))
  {
    var fed := FeedLink(r.link).0;
    assert Coherent(fed.raw);
    StepHasShape(fed.raw, 0, reply, carrier);
    StepCoherent(fed.raw, 0, reply, carrier);
    var t := Step(fed.raw, 0, reply, carrier);
    ShapeServes(r.link, reply, t);
    ServedOrdered(r, fed.(raw := t.state), t.call);
  }

  lemma {:induction false} RunOrdered(r: Trace, ops: seq<LinkOp>)
    requires Ordered(r)
    ensures Ordered(TraceAll(r, ops))
    decreases ops
  {
    if ops != [] {
      if ops[0].Turned? {
        TurnOrdered(r, ops[0].reply, ops[0].carrier);
      } else {
        PushOrdered(r, ops[0]);
      }
      RunOrdered(TraceStep(r, ops[0]), ops[1..]);
    }
  }

  /** The session as opened over a queue, by a peer that has finished or not. */
  function Opened(buffer: seq<Bytes>, finished: bool): Trace {
    Trace(if finished then OpenFinished(buffer) else Link(New, buffer, Receiving), buffer, [])
  }

  /**
   In every run of a session opened with or without a finished direction, over a
   queue of non-empty quanta: the inputs received are a prefix of those queued at
   the start and those pushed and accepted since, in order and once each, and FIN
   is observed at most once, after the first activation and after every one of
   them. A live session still queues the rest. Once one whose peer finished has no
   work left, everything was received and FIN was observed.
   */
  lemma InputsThenFin(buffer: seq<Bytes>, finished: bool, ops: seq<LinkOp>)
    requires NonEmptyQuanta(buffer)
    ensures var start := Opened(buffer, finished);
            var end := TraceAll(start, ops);
            var given := buffer + AcceptedInputs(ops, Answers(start, ops));
            && end.pushed == given
            && Received(end.calls) <= given
            && FinOnce(end.calls, given)
            && (end.link.raw != Terminated ==> Received(end.calls) + end.link.buffer == given)
            && (end.link.raw != Terminated && end.link.direction != Receiving && !end.link.Ready() ==>
                  Finish in end.calls && Received(end.calls) == given)
  {
    var start := Opened(buffer, finished);
    assert Received(start.calls) + buffer == buffer;
    RunOrdered(start, ops);
    PushedIsAccepted(start, ops);
  }

  /**
   Without the assumption on quanta, FIN overtakes queued input exactly when an
   empty quantum at the head leaves the slot vacant while FIN is due.
   */
  lemma FinOvertakesExactly(s: Link, reply: Reply, carrier: Carrier)
    requires Coherent(s.raw)
    requires s.raw.phase == Idle || s.raw.phase == Phase.Turn ==> s.raw.pending.None?
    requires s.direction == Shut ==> s.buffer == []
    ensures var t := TransactLink(s, reply, carrier);
            t.turn.call == Some(Finish) && t.link.buffer != [] <==>
              && s.raw.flags.finPending && !s.raw.flags.initial
              && (s.raw.phase == Idle || s.raw.phase == Phase.Turn)
              && |s.buffer| > 1 && s.buffer[0] == []
  {
  }

  /** Such a state is reachable when the queue handed over holds empty quanta. */
  lemma FinCanOvertake()
    ensures var quiet := Turned(Reply(0, None, Wait), Carrier(CommitPresent, CommitVacant));
            var start := Trace(OpenFinished([[], [], [1]]), [[], [], [1]], []);
            TraceAll(start, [quiet, quiet]).calls == [Activated, Finish]
            && TraceAll(start, [quiet, quiet]).link.buffer == [[1]]
  {
    var quiet := Turned(Reply(0, None, Wait), Carrier(CommitPresent, CommitVacant));
    var start := Trace(OpenFinished([[], [], [1]]), [[], [], [1]], []);
    var once := TraceStep(start, quiet);
    assert once.calls == [Activated] && once.link.buffer == [[], [1]];
    var twice := TraceStep(once, quiet);
    assert twice.calls == [Activated, Finish] && twice.link.buffer == [[1]];
    assert TraceAll(start, [quiet, quiet]) == TraceAll(once, [quiet]) by {
      assert [quiet, quiet][1..] == [quiet];
    }
    assert TraceAll(once, [quiet]) == TraceAll(twice, []);
  }

  /** Such a queue also makes a resting session ready for a transaction that does nothing. */
  lemma WorkCanMislead()
    ensures var quiet := Turned(Reply(0, None, Wait), Carrier(CommitPresent, CommitVacant));
            var rested := TraceStep(Trace(Link(New, [[], []], Receiving), [[], []], []), quiet).link;
            && rested.Ready()
            && TransactLink(rested, quiet.reply, quiet.carrier).turn.result == NoWork
  {
    var quiet := Turned(Reply(0, None, Wait), Carrier(CommitPresent, CommitVacant));
    var rested := TraceStep(Trace(Link(New, [[], []], Receiving), [[], []], []), quiet).link;
    assert rested.buffer == [[]] && rested.raw.Progress() == AtRest;
  }

  // ------------------------------------------------------- the object

  /** One session machine paired with its carrier-owned input buffer. */
  class Session {
    const raw: Machine
    var buffer: seq<Bytes>
    var direction: Direction

    constructor Open(buffer: seq<Bytes>)
      ensures Abs() == Link(New, buffer, Receiving) && fresh(raw)
    {
      raw := new Machine();
      this.buffer, direction := buffer, Receiving;
    }

    constructor Finished(buffer: seq<Bytes>)
      ensures Abs() == OpenFinished(buffer) && fresh(raw)
    {
      raw := new Machine.WithFinish();
      this.buffer, direction := buffer, Finishing;
    }

    function Abs(): Link
      reads this, raw
    {
      Link(raw.Abs(), buffer, direction)
    }

    method Push(input: Bytes, end: bool, fits: bool) returns (r: PushResult)
      modifies this, raw
      ensures (Abs(), r) == PushLink(old(Abs()), input, end, fits)
      ensures buffer == if r == Accepted && input != [] then old(buffer) + [input] else old(buffer)
    {
      if !Abs().IsOpen() {
        return LateInput;
      }
      if end && raw.Abs().FinishRefused() {
        return RefusedFinish(raw.Abs().Progress() == Ended);
      }
      if !fits {
        return BufferFull;
      }
      if input != [] {
        buffer := buffer + [input];
      }
      if end {
        raw.CommitFinish();
        direction := if buffer == [] then Shut else Finishing;
      }
      return Accepted;
    }

    method Finish() returns (r: FinishResult)
      modifies this, raw
      ensures (Abs(), r) == FinishLink(old(Abs()))
    {
      match direction
      case Receiving =>
        if raw.Abs().FinishRefused() {
          return FinishError(raw.Abs().Progress() == Ended);
        }
        raw.CommitFinish();
        direction := if buffer == [] then Shut else Finishing;
        return FinishAccepted;
      case Finishing => return FinishError(false);
      case Shut => return FinishError(true);
    }

    method Transact(reply: Reply, carrier: Carrier)
      returns (result: DuplexMachine.Result, call: Option<Call>, offered: Option<Emission>, fed: Option<Bytes>)
      modifies this, raw
      ensures LinkTurn(Abs(), Taken(raw.Abs(), result, call, offered), fed)
           == TransactLink(old(Abs()), reply, carrier)
    {
      fed := Feed();
      result, call, offered := raw.Transact(0, reply, carrier);
    }

    method Feed() returns (fed: Option<Bytes>)
      modifies this, raw
      ensures (Abs(), fed) == FeedLink(old(Abs()))
    {
      if direction == Shut || raw.Abs().Progress() == Ended {
        return None;
      }
      if !raw.Abs().Vacant() || buffer == [] {
        return None;
      }
      var input := buffer[0];
      buffer := buffer[1..];
      raw.CommitInput(input);
      if direction == Finishing && buffer == [] {
        direction := Shut;
      }
      return Some(input);
    }
  }
}
