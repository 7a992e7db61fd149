/**
 What becomes of a callback's output: what the carrier is shown, when a commit
 closes or ends the session, and what an undecided offer is followed by. Stated
 about transactions and runs in terms of replies, decisions and results alone.
 */
module DuplexOutput {
  import opened Common
  import opened DuplexMachine
  import opened DuplexRuns

  /** The payload is the non-empty part of the output. */
  predicate Carries(payload: Option<Quantum>, output: Option<Bytes>) {
    match output
    case None => payload == None
    case Some(bytes) => if bytes == [] then payload == None else payload.Some? && payload.value == bytes
  }

  /** The carrier wants to see the offer again. */
  predicate Undecided(e: Emission, c: Carrier) {
    if e.payload.Some? then c.present.Keep? else c.vacant.Block?
  }

  predicate Agreed(e: Emission, c: Carrier) {
    if e.payload.Some? then c.present.CommitPresent? else c.vacant.CommitVacant?
  }

  // ------------------------------------------------------- one transaction

  /** Nothing runs while an action is staged. Otherwise a held input is received first; the
      first activation comes before an observed FIN, and any later one after it. */
  lemma CallIsChosen(m: State, capacity: nat, reply: Reply, carrier: Carrier)
    requires Coherent(m)
    ensures var t := Step(m, capacity, reply, carrier);
            var free, fin := ActionOf(m.phase) == None, m.flags.finPending;
            && (forall input :: t.call == Some(Receive(input)) <==> free && m.pending.Some? && m.pending.value == input)
            && (t.call == Some(Finish) <==> free && m.pending == None && fin && !m.flags.initial)
            && (t.call == Some(Activated) <==>
                  free && m.pending == None && m.phase == Phase.Turn && (m.flags.initial || !fin))
  {
  }

  /** A callback's reply is what the carrier is shown, or the reason it is shown nothing. */
  lemma ReplyIsOffered(m: State, capacity: nat, reply: Reply, carrier: Carrier)
    requires Coherent(m)
    ensures var t := Step(m, capacity, reply, carrier);
            t.call.Some? ==>
              && (t.offered.Some? ==>
                    Carries(t.offered.value.payload, reply.output) && t.offered.value.written == reply.written)
              && (t.result == Violated(PrefixCapacity(reply.written, capacity)) <==> reply.written > capacity)
              && (t.result == Violated(Violation.OutputAfterFinish) <==>
                    reply.written <= capacity && m.output == Closed
                    && (reply.written != 0 || (reply.output.Some? && reply.output.value != [])))
              && (t.offered.None? <==>
                    t.result == Violated(PrefixCapacity(reply.written, capacity))
                    || t.result == Violated(Violation.OutputAfterFinish))
  {
  }

  /** Without a callback what was kept is shown again, and nothing more. */
  lemma KeptIsOffered(m: State, capacity: nat, reply: Reply, carrier: Carrier)
    requires Coherent(m) && (m.output == Closed && ActionOf(m.phase).Some? ==> m.pending.None?)
    ensures var t := Step(m, capacity, reply, carrier);
            && (t.call.None? && t.offered.Some? ==>
                  t.offered.value.payload == m.pending && t.offered.value.written == 0)
            && (t.call.None? && t.offered.None? ==> t.state == m && t.result == NoWork)
  {
  }

  /** On an open output the end shown is the one the session asked for; on a closed one there is none. */
  lemma EndIsAsked(m: State, capacity: nat, reply: Reply, carrier: Carrier)
    requires Coherent(m)
    ensures var t := Step(m, capacity, reply, carrier);
            t.offered.Some? ==>
              var end := t.offered.value.end;
              && (m.output == Closed ==> end == EndOpen)
              && (m.output == Open && t.call.Some? ==>
                    && (end == EndOutput <==> reply.directive == FinishOutput)
                    && (end == EndSession <==> reply.directive == FinishSession))
  {
  }

  /** The result is the carrier's decision on what it was shown. */
  lemma DecisionIsResult(m: State, capacity: nat, reply: Reply, carrier: Carrier)
    requires Coherent(m)
    ensures var t := Step(m, capacity, reply, carrier);
            t.offered.Some? ==>
              var e := t.offered.value;
              && (t.result.Committed? <==> Agreed(e, carrier))
              && (t.result == Pending <==> Undecided(e, carrier) && e.written == 0)
              && (t.result == Violated(PrefixPending) <==> Undecided(e, carrier) && e.written != 0)
              && (t.result == Rejected <==> !Agreed(e, carrier) && !Undecided(e, carrier))
  {
  }

  /** A live commit of `FinishOutput` ends the session exactly when the peer's FIN was
      observed and no activation is outstanding from the start. */
  lemma CommitEndsExactly(m: State, capacity: nat, reply: Reply, carrier: Carrier)
    requires Coherent(m)
    ensures var t := Step(m, capacity, reply, carrier);
            t.call.Some? && t.result.Committed? ==>
              (t.state == Terminated <==>
                 || reply.directive == FinishSession
                 || (reply.directive == FinishOutput && m.flags.finHeld
                     && (!m.flags.finPending || t.call == Some(Finish))
                     && (!m.flags.initial || t.call == Some(Activated))))
  {
  }

  // ------------------------------------------------------- whole runs

  /** One transaction as seen from outside: reply, decision and what came of them, with
      the latest directive, whether FIN has been observed, and whether the output was closed. */
  datatype Entry =
    | Did(reply: Reply, carrier: Carrier, turn: Turn, said: Directive, fin: bool, closed: bool)
    | Retired

  datatype Journal = Journal(machine: State, log: seq<Entry>, said: Directive, fin: bool, closed: bool)

  function Begun(finished: bool): Journal {
    Journal(if finished then New.WithFinish() else New, [], Wait, false, false)
  }

  function Write(j: Journal, op: Op): Journal {
    match op
    case Input(input) =>
      if j.machine.Vacant() then j.(machine := j.machine.(pending := Filled(Some(input)))) else j
    case PeerFinish => if j.machine.FinishRefused() then j else j.(machine := j.machine.WithFinish())
    case Transaction(capacity, reply, carrier) =>
      var t := Step(j.machine, capacity, reply, carrier);
      var said := if t.call.Some? then reply.directive else j.said;
      var fin := j.fin || t.call == Some(Finish);
      Journal(t.state, j.log + [Did(reply, carrier, t, said, fin, j.closed)], said, fin,
              j.closed || (t.result.Committed? && t.offered.Some? && t.offered.value.end != EndOpen))
    case Retire =>
      Journal(if j.machine.phase == Finished then j.machine else Terminated, j.log + [Retired], j.said, j.fin, j.closed)
  }

  function WriteAll(j: Journal, ops: seq<Op>): Journal
    decreases ops
  {
    if ops == [] then j else WriteAll(Write(j, ops[0]), ops[1..])
  }

  /** What an undecided offer leaves to be shown next. */
  function Rest(e: Entry): Option<Quantum>
    requires e.Did? && e.turn.offered.Some? && Undecided(e.turn.offered.value, e.carrier)
  {
    if e.turn.offered.value.payload.Some? then Some(e.carrier.present.rest) else None
  }

  /** The output of the callback that ran is shown there and then, or breaks the contract. */
  predicate OwnOutput(e: Entry) {
    e.Did? && e.turn.call.Some? ==>
      && (e.turn.offered.Some? ==>
            Carries(e.turn.offered.value.payload, e.reply.output) && e.turn.offered.value.written == e.reply.written)
      && (e.turn.offered.None? ==> e.turn.result.Violated?)
  }

  /** Ends are shown as the session asked, once, and a commit ends the session exactly
      on request or when the output finishes after FIN was observed. */
  predicate EndsRight(e: Entry) {
    e.Did? ==>
      && (e.turn.offered.Some? ==>
            var end := e.turn.offered.value.end;
            && (e.closed ==> end == EndOpen)
            && (!e.closed ==> (end == EndOutput <==> e.said == FinishOutput))
            && (!e.closed ==> (end == EndSession <==> e.said == FinishSession)))
      && (e.turn.result.Committed? ==>
            (e.turn.state == Terminated <==> e.said == FinishSession || (e.said == FinishOutput && e.fin)))
  }

  predicate IsPending(e: Entry) {
    e.Did? && e.turn.result == Pending && e.turn.offered.Some? && Undecided(e.turn.offered.value, e.carrier)
  }

  /** After an undecided offer comes no callback but exactly what was kept; after anything
      else only a callback leads to an offer. */
  predicate Follows(prev: Option<Entry>, next: Entry) {
    next.Did? ==>
      if prev.Some? && IsPending(prev.value) then
        && next.turn.call == None && next.turn.offered.Some?
        && next.turn.offered.value.payload == Rest(prev.value) && next.turn.offered.value.written == 0
        && next.turn.offered.value.end == prev.value.turn.offered.value.end
      else
        && (next.turn.call == None ==> next.turn.offered == None)
        && (prev == Some(Retired) ==> next.turn.result == NoWork)
  }

  function Before(log: seq<Entry>, i: nat): Option<Entry>
    requires i <= |log|
  {
    if i == 0 then None else Some(log[i - 1])
  }

  predicate EntryRight(log: seq<Entry>, i: nat)
    requires i < |log|
  {
    OwnOutput(log[i]) && EndsRight(log[i]) && Follows(Before(log, i), log[i])
  }

  predicate AllRight(log: seq<Entry>) {
    forall i :: 0 <= i < |log| ==> EntryRight(log, i)
  }

  /** What an offer of the staged directive would show as its end. */
  predicate EndFits(end: End, closed: bool, said: Directive) {
    && (closed ==> end == EndOpen)
    && (!closed ==> (end == EndOutput <==> said == FinishOutput) && (end == EndSession <==> said == FinishSession))
  }

  /** The machine stands where its last entry left it. */
  ghost predicate Joined(j: Journal) {
    var m, last := j.machine, Before(j.log, |j.log|);
    && Coherent(m)
    && (m != Terminated ==>
          && (j.closed <==> m.output == Closed)
          && (j.fin <==> m.flags.finHeld && !m.flags.finPending)
          && (j.fin ==> !m.flags.initial))
    && (last == Some(Retired) ==> m == Terminated)
    && (if last.Some? && IsPending(last.value) then
          && m != Terminated
          && ActionOf(m.phase).Some? && ActionOf(m.phase).value.directive == j.said
          && m.pending == Rest(last.value) && (m.output == Closed ==> m.pending.None?)
          && EndFits(last.value.turn.offered.value.end, j.closed, j.said)
        else ActionOf(m.phase) == None)
  }

  lemma OtherOpJoined(j: Journal, op: Op)
    requires Joined(j) && AllRight(j.log) && !op.Transaction?
    ensures Joined(Write(j, op)) && AllRight(Write(j, op).log)
  {
    var next := Write(j, op);
    forall i | 0 <= i < |next.log| ensures EntryRight(next.log, i) {
      if i < |j.log| {
        assert EntryRight(j.log, i);
      }
    }
  }

  /** Where an offer leaves the machine that staged it. */
  ghost predicate Leaves(m: State, staged: Staged, carrier: Carrier, t: Turn) {
    && (t.result == Pending ==>
          && t.offered.Some? && t.offered.value.payload == m.pending && Undecided(t.offered.value, carrier)
          && t.offered.value.end == EndOf(m.output, staged.directive)
          && t.state == m.(pending := if m.pending.Some? then Some(carrier.present.rest) else None))
    && (t.result.Committed? ==>
          && t.offered.Some?
          && (t.state != Terminated ==>
                && t.state.flags == m.flags && ActionOf(t.state.phase) == None
                && (t.state.output == Closed <==> m.output == Closed || t.offered.value.end != EndOpen)))
    && (t.result != Pending && !t.result.Committed? ==> t.state == Terminated)
    && (m.output == Closed && t.result == Pending ==> m.pending.None?)
  }

  lemma OfferLeaves(m: State, staged: Staged, written: nat, capacity: nat, call: Option<Call>, carrier: Carrier)
    requires ActionOf(m.phase) == Some(staged)
    ensures var t := Offer(m, staged, written, capacity, call, carrier);
            t.call == call && Leaves(m, staged, carrier, t)
  {
  }

  /** The staged action, flags and output that a callback leaves. */
  lemma CalledStages(m: State, capacity: nat, reply: Reply, carrier: Carrier)
    requires ActionOf(m.phase) == None && CallOf(m).Some?
    ensures var called, t := Called(m, CallOf(m).value, reply), Step(m, capacity, reply, carrier);
            var staged := ActionOf(called.phase);
            && t.call == CallOf(m)
            && staged.Some? && staged.value.directive == reply.directive
            && called.output == m.output
            && called.flags.finHeld == m.flags.finHeld
            && called.flags.finPending == (m.flags.finPending && t.call != Some(Finish))
            && called.flags.initial == (m.flags.initial && t.call != Some(Activated))
            && Leaves(called, staged.value, carrier, t)
  {
    hide Offer, Leaves;
    var called := Called(m, CallOf(m).value, reply);
    OfferLeaves(called, ActionOf(called.phase).value, reply.written, capacity, CallOf(m), carrier);
  }

  /** A callback's transaction leaves the machine where its entry says. */
  lemma CallJoined(j: Journal, capacity: nat, reply: Reply, carrier: Carrier)
    requires Joined(j) && Step(j.machine, capacity, reply, carrier).call.Some?
    ensures Joined(Write(j, Transaction(capacity, reply, carrier)))
  {
    var m := j.machine;
    StepCoherent(m, capacity, reply, carrier);
    CallIsChosen(m, capacity, reply, carrier);
    CalledStages(m, capacity, reply, carrier);
    hide Step, Offer, Called;
  }

  lemma CallEntry(j: Journal, capacity: nat, reply: Reply, carrier: Carrier)
    requires Joined(j) && Step(j.machine, capacity, reply, carrier).call.Some?
    ensures var e := Write(j, Transaction(capacity, reply, carrier)).log[|j.log|];
            OwnOutput(e) && EndsRight(e) && Follows(Before(j.log, |j.log|), e)
  {
    var m := j.machine;
    ReplyIsOffered(m, capacity, reply, carrier);
    EndIsAsked(m, capacity, reply, carrier);
    CommitEndsExactly(m, capacity, reply, carrier);
    CallIsChosen(m, capacity, reply, carrier);
    hide Step, Carries;
  }

  /** The same for a transaction that shows again what was kept, or finds nothing to do. */
  lemma QuietJoined(j: Journal, capacity: nat, reply: Reply, carrier: Carrier)
    requires Joined(j) && Step(j.machine, capacity, reply, carrier).call.None?
    ensures Joined(Write(j, Transaction(capacity, reply, carrier)))
  {
    var m := j.machine;
    StepCoherent(m, capacity, reply, carrier);
    var staged := ActionOf(m.phase);
    if staged.Some? {
      OfferLeaves(m, staged.value, 0, capacity, None, carrier);
    }
    hide Offer, Called;
  }

  lemma QuietEntry(j: Journal, capacity: nat, reply: Reply, carrier: Carrier)
    requires Joined(j) && Step(j.machine, capacity, reply, carrier).call.None?
    ensures var e := Write(j, Transaction(capacity, reply, carrier)).log[|j.log|];
            OwnOutput(e) && EndsRight(e) && Follows(Before(j.log, |j.log|), e)
  {
  }

  lemma LogExtends(log: seq<Entry>, e: Entry)
    requires AllRight(log) && OwnOutput(e) && EndsRight(e) && Follows(Before(log, |log|), e)
    ensures AllRight(log + [e])
  {
    hide OwnOutput, EndsRight, Follows;
    var next := log + [e];
    forall i | 0 <= i < |next| ensures EntryRight(next, i) {
      assert i < |log| ==> EntryRight(log, i);
    }
  }

  lemma StepJoined(j: Journal, op: Op)
    requires Joined(j) && AllRight(j.log)
    ensures Joined(Write(j, op)) && AllRight(Write(j, op).log)
  {
    hide Step, Joined, OwnOutput, EndsRight, Follows, AllRight;
    match op {
      case Transaction(capacity, reply, carrier) =>
        if Step(j.machine, capacity, reply, carrier).call.Some? {
          CallJoined(j, capacity, reply, carrier);
          CallEntry(j, capacity, reply, carrier);
        } else {
          QuietJoined(j, capacity, reply, carrier);
          QuietEntry(j, capacity, reply, carrier);
        }
        LogExtends(j.log, Write(j, op).log[|j.log|]);
      case _ => OtherOpJoined(j, op);
    }
  }

  lemma {:induction false} RunJoined(j: Journal, ops: seq<Op>)
    requires Joined(j) && AllRight(j.log)
    ensures Joined(WriteAll(j, ops)) && AllRight(WriteAll(j, ops).log)
    decreases ops
  {
    if ops != [] {
      StepJoined(j, ops[0]);
      RunJoined(Write(j, ops[0]), ops[1..]);
    }
  }

  /**
   In every run of a machine opened either way: each callback's output is shown to
   the carrier in its own transaction; while the carrier is undecided exactly what
   it kept is shown next and no callback runs; nothing else is ever shown. Ends are
   shown as asked and only on an open output, and a commit ends the session exactly
   on request, or when the output finishes after FIN was observed.
   */
  lemma OutputIsDelivered(finished: bool, ops: seq<Op>)
    ensures AllRight(WriteAll(Begun(finished), ops).log)
  {
    RunJoined(Begun(finished), ops);
  }
}
