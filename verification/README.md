# Verified models of the protocol cores

Dafny models of the small state machines and the one compiler at the heart of
this HTTP and gRPC stack, with proofs about every input, every run and every
reachable state. Each group keeps the shape of the code it models: objects with
fields are classes whose methods are proved against functions on plain values,
and the promises are lemmas about those functions and the runs made of them.

| group | files |
|---|---|
| duplex session machine and carrier queue | `duplex_machine`, `duplex_runs`, `duplex_output`, `duplex_input` |
| deadline timeline and agenda | `deadline_timeline`, `deadline_agenda`, `deadline_phases`, `agenda_phases` |
| JSON strings, atoms, nesting, scanners | `json_string`, `json_unicode`, `json_text`, `json_surrogates`, `json_scan`, `json_atom`, `language`, `json_grammar`, `json_characters`, `json_nesting`, `json_replay`, `json_packed`, `json_input`, `json_values` |
| gRPC route compiler | `route_table` |
| HTTP/2 flow control | `flow_control`, `flow_peers` |
| gRPC framing, varints, fields, payload cursor | `deframer`, `message_cursor`, `varint` |
| HTTP/3 segmented sources | `sources` |
| redirect machine | `redirect` |

Session callbacks, carrier decisions, clocks, deadline windows, URI resolution
and the reading of eight bytes as one word are parameters: the theorems hold for
every value of them that meets the stated condition. Integers are unbounded
except where the code narrows, wraps or checks them; there the width is written
out (`i32` and `u32` windows, `u64` values, `bv64` words, the 16-bit escape value).

`dafny verify dfyconfig.toml` checks the whole project.

## Findings

- Deadlines. The timeline refreshes progress whichever phase is due, so a total
  expiry can move a body-idle deadline to an earlier instant when the clock ran
  backwards; `PopRefinesExactly` gives the exact condition and
  `ClockOrderMatters` a run. The agenda checks the phase first and cannot.
- Deadlines. Scheduling a body-idle instant that is already resident keeps later
  progress instead of dropping it; `ApplyRefinesExactly` and
  `PerformRefinesExactly` give the exact condition, `RescheduleKeepsProgress` a run
  that meets it, and `PerformOnTime` what callers do to stay clear of it.
- Duplex. FIN overtakes queued input exactly when the queue holds an empty
  quantum at its head at the wrong moment (`FinOvertakesExactly`,
  `FinCanOvertake`); with non-empty quanta it never does (`InputsThenFin`). An
  empty quantum is also the only way `work` can be ready for a transaction that
  turns out idle (`WorkIsExact`, `WorkCanMislead`).
- JSON. The strings accepted are those of section 7 of RFC 8259 whose surrogate
  escapes come in pairs (`LooseIsAcceptedExactly`); `LoneHighRefused` is a string
  of section 7 that is refused.
- JSON. A string automaton that refuses a lone low surrogate has already left its
  escape state, and only then does a refused byte change it
  (`RefusalKeepsExactly`, `LoneLowForgets`); the nesting tracker is unaffected
  because it works on a copy (`JsonPacked.Nesting.Step`).

## Model

| member | source | states |
|---|---|---|
| `DuplexMachine.FromAction` | core/src/duplex/machine.rs:29-62 | the eight staged phases encode a directive and a resumption; decoding returns both |
| `DuplexMachine.Machine.CommitInput` | core/src/duplex/machine.rs:166-173 | a vacant slot takes one input; an empty one leaves it vacant |
| `DuplexMachine.Machine.CommitFinish` | core/src/duplex/machine.rs:177-184 | FIN becomes pending and held, and nothing else changes |
| `DuplexMachine.Machine.Transact` | core/src/duplex/machine.rs:299-427 | state, result, callback and emission of one transaction are those of the pure transaction, for every reply and carrier decision; what these are in terms of the reply is stated by DuplexOutput |
| `DuplexMachine.Machine.Present` | core/src/duplex/machine.rs:346-427 | the admission half: the refusals, the emission offered, and the state after each carrier decision |
| `DuplexMachine.Machine.Terminate` | core/src/duplex/machine.rs:429-434 | empties the slot, clears the flags, closes the output |
| `DuplexMachine.Machine.Retire` | core/src/duplex/machine.rs:449-454 | terminates unless already finished |
| `DuplexRuns.StepCoherent` | core/src/duplex/machine.rs:299-434 | the joint invariant of phase, flags, slot and output survives every transaction |
| `DuplexRuns.FinishedAbsorbs` | core/src/duplex/machine.rs:258-275 | an ended machine has an empty slot and no flags, and absorbs every later transaction |
| `DuplexRuns.ProjectionIsExact` | core/src/duplex/machine.rs:91-130 | the `after` shown to the carrier is the progress of the committed state; a transaction is idle exactly when progress was not runnable |
| `DuplexRuns.CommitFacts` | core/src/duplex/machine.rs:346-404 | a committed closing emission leaves the output closed, and commits on a closed output are silent |
| `DuplexRuns.ClosingIsFinal` | core/src/duplex/machine.rs:346-434 | over every run at most one committed emission closes the output, and none after it carries output |
| `DuplexRuns.ActivationIsNotLost` | core/src/duplex/machine.rs:317-344 | over every run an activation requested since the last one is still owed, until the session ends |
| `DuplexRuns.RunsFromStart` | core/src/duplex/machine.rs:226-242 | both guarantees for every run of a machine opened with or without FIN |
| `DuplexOutput.CallIsChosen` | core/src/duplex/machine.rs:308-336 | which callback runs: none while an action is staged, else a held input, the first activation, FIN, a later activation |
| `DuplexOutput.ReplyIsOffered` | core/src/duplex/machine.rs:334-371 | what the carrier is shown after a callback is the non-empty part of its output with its prefix, unless the reply breaks the contract, and exactly when it does |
| `DuplexOutput.KeptIsOffered` | core/src/duplex/machine.rs:309-310 | without a callback the payload held is shown again with no prefix, and otherwise nothing happens |
| `DuplexOutput.EndIsAsked` | core/src/duplex/machine.rs:357-362 | on an open output the end shown is the one the directive asks for, on a closed one none |
| `DuplexOutput.DecisionIsResult` | core/src/duplex/machine.rs:384-427 | committed, pending, rejected and the violated prefix, each exactly on the matching carrier decision |
| `DuplexOutput.CommitEndsExactly` | core/src/duplex/machine.rs:91-130 | a committed transaction ends the session exactly on request, or when the output finishes after FIN was observed |
| `DuplexOutput.OutputIsDelivered` | core/src/duplex/machine.rs:299-454 | over every run each callback output is shown in its own transaction; after an undecided offer exactly what was kept is shown next, before any callback; nothing else is ever shown, and ends are as asked |
| `DuplexInput.WorkIsExact` | core/src/duplex/input.rs:145-154 | `work` is ready exactly when the next transaction is not idle, but for an empty quantum fed to a resting session |
| `DuplexInput.RunOrdered` | core/src/duplex/input.rs:156-248 | the invariant joining queue, slot, flags and callback history survives every run |
| `DuplexInput.InputsThenFin` | core/src/duplex/input.rs:115-248 | received inputs are a prefix of the initial quanta and the pushes answered Accepted, in order and once each, and the queue holds the rest; FIN at most once, after the first activation and all of them; delivered in full once no work is left |
| `DuplexInput.PushedIsAccepted` | core/src/duplex/input.rs:156-185 | over every run what was queued is the non-empty inputs of the pushes answered Accepted, in order |
| `DuplexInput.PushAnswers` | core/src/duplex/input.rs:156-185 | when a push is accepted, which of the three refusals it gets otherwise, and the queue, flags and direction either leaves |
| `DuplexInput.FinishAnswers` | core/src/duplex/input.rs:187-207 | when a separate FIN is accepted, which error it gets otherwise, and what either leaves |
| `DuplexInput.FeedsExactly` | core/src/duplex/input.rs:222-248 | when the head quantum moves into the slot, what it leaves in slot and queue, and when the direction shuts |
| `DuplexInput.FinOvertakesExactly` | core/src/duplex/machine.rs:166-173 | when quanta may be empty: FIN overtakes queued input exactly when an empty quantum at the head leaves the slot vacant while FIN is due |
| `DuplexInput.FinCanOvertake` | core/src/duplex/input.rs:123-130 | a concrete run in which it does |
| `DuplexInput.WorkCanMislead` | core/src/duplex/input.rs:145-154 | a concrete queue of empty quanta for which `work` is ready and the next transaction does nothing |
| `DuplexInput.Session.Open` | core/src/duplex/input.rs:115-121 | a new machine over the given queue, still receiving |
| `DuplexInput.Session.Finished` | core/src/duplex/input.rs:123-130 | a machine opened with FIN recorded |
| `DuplexInput.Session.Push` | core/src/duplex/input.rs:156-185 | the object follows the pure push, with its three refusals; exactly an accepted non-empty input joins the queue |
| `DuplexInput.Session.Finish` | core/src/duplex/input.rs:187-207 | the object follows the pure finish, with both errors |
| `DuplexInput.Session.Transact` | core/src/duplex/input.rs:209-220 | feeds at most one quantum, then transacts |
| `DuplexInput.Session.Feed` | core/src/duplex/input.rs:222-248 | moves the head quantum into a vacant slot and shuts a drained direction |
| `DeadlineTimeline.NextIsLeast` | core/src/deadline/timeline.rs:150-152 | the scan over three lanes finds the unique least expiry |
| `DeadlineTimeline.PopRefinesExactly` | core/src/deadline/timeline.rs:154-163 | a pop returns what the eager timeline returns, and leaves it in agreement exactly when no deadline was advanced on the way |
| `DeadlineTimeline.ApplyRefinesExactly` | core/src/deadline/timeline.rs:100-148 | a transition acts eagerly on effective instants except exactly when it re-installs the resident body-idle instant under later progress |
| `DeadlineTimeline.ApplyRefines` | core/src/deadline/timeline.rs:100-148 | with a monotone clock that exception never occurs |
| `DeadlineTimeline.RunRefines` | core/src/deadline/timeline.rs:78-163 | over every run with a monotone clock the lazy timeline expires what the eager one does, in order |
| `DeadlineTimeline.ClockOrderMatters` | core/src/deadline/timeline.rs:233-245 | without a monotone clock they part: a concrete run |
| `DeadlineTimeline.Timeline.Transition` | core/src/deadline/timeline.rs:78-98 | reports Earliest exactly when the minimum moved and Unchanged exactly when nothing did |
| `DeadlineTimeline.Timeline.Apply` | core/src/deadline/timeline.rs:100-148 | new state of every transition, whose effect on every phase is stated by DeadlinePhases.TransitionsAreExact; reports a change exactly when there was one |
| `DeadlineTimeline.Timeline.PopDue` | core/src/deadline/timeline.rs:154-163 | the loop ends by spending progress and yields the pure result |
| `DeadlineTimeline.Timeline.InsertAt` | core/src/deadline/timeline.rs:177-193 | installs unless that very entry is resident |
| `DeadlineTimeline.Timeline.Remove` | core/src/deadline/timeline.rs:195-213 | removes only an entry of that phase |
| `DeadlineTimeline.Timeline.Advance` | core/src/deadline/timeline.rs:215-231 | keeps the latest progress of a resident body-idle deadline |
| `DeadlineTimeline.Timeline.Refresh` | core/src/deadline/timeline.rs:233-245 | spends progress, renewing only beyond the visited instant |
| `DeadlineTimeline.Timeline.Clear` | core/src/deadline/timeline.rs:247-253 | empties the timeline and reports whether it held anything |
| `DeadlineAgenda.NextPrecedes` | core/src/deadline/mod.rs:274-281 | the stale minimum of a lane precedes every effective instant of it |
| `DeadlineAgenda.VisitRefines` | core/src/deadline/mod.rs:291-313 | a visit renews without effect on any instant, or retires an exact one |
| `DeadlineAgenda.PollRefines` | core/src/deadline/mod.rs:435-462 | a poll renews without effect, spending one retained progress, or expires a least effective instant |
| `DeadlineAgenda.NothingDue` | core/src/deadline/mod.rs:435-442 | no due heap key means no due effective instant |
| `DeadlineAgenda.PopsAscend` | core/src/deadline/mod.rs:183-191 | what is left after a pop is never earlier than what was popped |
| `DeadlineAgenda.PerformRefinesExactly` | core/src/deadline/mod.rs:338-429 | schedule, cancel and transition keep heap keys at lane minima and act eagerly, except exactly when a stale body-idle instant is re-installed under progress |
| `DeadlineAgenda.RescheduleKeepsProgress` | core/src/deadline/mod.rs:386-404 | a concrete run that reaches the exception: a body-idle instant scheduled again keeps later progress |
| `DeadlineAgenda.PerformOnTime` | core/src/deadline/mod.rs:338-429 | on a clock that does not run backwards, and with no body-idle instant scheduled before the end of a window opened now, the exception never occurs |
| `DeadlineAgenda.PollExplained` | core/src/deadline/mod.rs:435-462 | a poll, whichever first resident the heap picks, is a right poll of the effective instants |
| `DeadlineAgenda.RunRefines` | core/src/deadline/mod.rs:338-462 | over every run on time every reported expiry is held, due and least in a book of effective instants that follows on its own, and idle means that none is due |
| `DeadlineAgenda.RunsFromEmpty` | core/src/deadline/mod.rs:332-462 | the same for every run of a new agenda, with conditions on the calls only |
| `DeadlineAgenda.ExpiriesAscend` | core/src/deadline/mod.rs:183-191 | consecutive expiries are nondecreasing |
| `DeadlineAgenda.RenewalsEnd` | core/src/deadline/mod.rs:180-191 | consecutive polls renew at most once for each retained progress |
| `DeadlineAgenda.SameExpiries` | core/src/deadline/mod.rs:183-191 | one pop of one exchange: lane and timeline expire the same entry, and stay in agreement exactly when the timeline advanced no deadline |
| `DeadlineAgenda.AlonePops` | core/src/deadline/mod.rs:183-191 | popping an agenda with one exchange leaves no choice |
| `DeadlineAgenda.SameSequence` | core/src/deadline/mod.rs:180-191 | repeatedly popping the agenda of one exchange and its timeline gives the same sequence of expiries |
| `DeadlineAgenda.PopLaneIsEager` | core/src/deadline/mod.rs:435-462 | polling, which checks the phase before refreshing, never advances a deadline |
| `DeadlineAgenda.Agenda.FirstEntry` | core/src/deadline/mod.rs:431-433 | a resident whose key no other precedes |
| `DeadlineAgenda.Agenda.PollDue` | core/src/deadline/mod.rs:435-462 | visits at most one due resident; idle means nothing is due |
| `DeadlineAgenda.Agenda.PopDue` | core/src/deadline/mod.rs:183-191 | returns a least effective instant that is due, or none exactly when none is; the loop terminates |
| `DeadlineAgenda.Agenda.TryEntry` | core/src/deadline/mod.rs:317-330 | refuses a key out of range or a slot held under another key |
| `DeadlineAgenda.Agenda.ScheduleItem` | core/src/deadline/mod.rs:386-404 | keeps an identical resident untouched, otherwise stores under the new minimum |
| `DeadlineAgenda.Agenda.Cancel` | core/src/deadline/mod.rs:406-411 | removes the exchange; a change not reported Earliest leaves the least priority as it was |
| `DeadlineAgenda.Agenda.CancelOne` | core/src/deadline/mod.rs:413-429 | retires one action; a change not reported Earliest leaves the least priority as it was |
| `DeadlineAgenda.Agenda.Transition` | core/src/deadline/mod.rs:338-382 | the heap key changes only when the lane minimum moved; unknown exchanges ignore progress |
| `DeadlinePhases.TransitionsAreExact` | core/src/deadline/timeline.rs:100-148 | each of the ten transitions has its stated effect on all five phases, read off the whole timeline, exactly unless it re-installs the resident body-idle instant under later progress |
| `DeadlinePhases.PopTakesForemost` | core/src/deadline/timeline.rs:154-163 | a pop returns the least due phase, in the order Total, Head, BodyIdle, Handler, ResponseAdmission at one instant, and removes it alone exactly when no deadline was advanced |
| `DeadlinePhases.TiesAreRanked` | core/src/deadline/mod.rs:31-37 | the tie order of the five phases |
| `DeadlinePhases.NextIsForemost` | core/src/deadline/timeline.rs:150-152 | the scan of the lanes finds the foremost phase |
| `DeadlinePhases.RunIsRight` | core/src/deadline/timeline.rs:78-163 | over every run with a monotone clock the timeline expires what five independent instants say, in order |
| `DeadlinePhases.NewTimelineIsRight` | core/src/deadline/timeline.rs:78-163 | the same from the empty timeline |
| `AgendaPhases.OrderIsNotAfter` | core/src/deadline/mod.rs:63-72 | at one instant every expiry precedes every wake, and expiries go by the tie order |
| `AgendaPhases.RefusalsAreExact` | core/src/deadline/mod.rs:143-147 | a key is refused exactly out of range or when another key holds its slot |
| `AgendaPhases.OperationsAreExact` | core/src/deadline/mod.rs:217-260 | schedule, cancel and transition have the stated effect on every phase and wake of one exchange and on nothing else, exactly unless the resident body-idle instant is installed again under later progress |
| `AgendaPhases.RunsAreRight` | core/src/deadline/mod.rs:165-220 | over every run on time of a new agenda an expiry is due and foremost among all phases and wakes of all exchanges, idle means nothing is due, and each operation has its stated effect |
| `RouteTable.Table.Insert` | grpc-build/src/table.rs:32-46 | stores one method at its path and nowhere else, or reports the index already there |
| `RouteTable.Table.Attach` | grpc-build/src/table.rs:32-46 | a new child changes one link and no route |
| `RouteTable.Table.Store` | grpc-build/src/table.rs:32-46 | a stored method changes one route and no link |
| `RouteTable.Decides` | grpc-build/src/table.rs:47-101 | guard and branch of a node decide its own path before the deeper ones |
| `RouteTable.Table.Chain` | grpc-build/src/table.rs:102-113 | follows routeless single-child nodes; every path leaving the chain misses |
| `RouteTable.Table.EmitAt` | grpc-build/src/table.rs:47-101 | guard and branch decide every path below the node as the trie does |
| `RouteTable.Table.EmitEdges` | grpc-build/src/table.rs:66-77 | the arms decide every path through a child as the trie does |
| `RouteTable.Table.Emit` | grpc-build/src/table.rs:20-31 | the emitted code evaluates on every path to what the trie holds there |
| `RouteTable.New` | grpc-build/src/table.rs:12-19 | builds a trie holding exactly the methods, or stops at the first repeated path |
| `RouteTable.Compile` | grpc-build/src/table.rs:12-113 | compilation fails exactly when two paths coincide; otherwise a method is selected on its own path only, and every other path misses |
| `RouteTable.OnlyThroughChildren` | grpc-build/src/table.rs:6-10 | a position below a node is reached through one of its children |
| `RouteTable.EvalArmsAppend` | grpc-build/src/table.rs:66-77 | arms with distinct tags are decided independently |
| `FlowControl.ReceiveConserves` | h2/src/flow.rs:301-346 | the only refusal is a stall; value plus pending is conserved; credit is announced exactly when refill is on and the threshold is reached, and then all of it; the refill error is unreachable |
| `FlowControl.Window.With` | h2/src/flow.rs:72-77 | both counters start equal |
| `FlowControl.Window.Increase` | h2/src/flow.rs:105-119 | both counters grow by the increment exactly, or the window is left as it was exactly when protocol credit would exceed the maximum |
| `FlowControl.Window.Adjust` | h2/src/flow.rs:121-134 | both counters shift by the change exactly, or the window is left as it was exactly when a bound would be passed |
| `FlowControl.Debit.UpTo` | h2/src/flow.rs:198-204 | at most the limit and each positive credit, equal to one of the three, and nothing when a credit is not positive |
| `FlowControl.Debit.Commit` | h2/src/flow.rs:239-244 | spends scheduler and protocol credit of both windows |
| `FlowControl.Debit.Reserve` | h2/src/flow.rs:246-254 | spends scheduler credit only and hands out the amount |
| `FlowControl.Reserved.Accept` | h2/src/flow.rs:266-283 | spends protocol credit of the windows that still exist |
| `FlowControl.Reserved.Cancel` | h2/src/flow.rs:273-288 | returns scheduler credit of the windows that still exist |
| `FlowControl.Endpoint.New` | h2/src/flow.rs:301-346 | the window, pending credit and announcement after receiving, or the refusal, without overflow |
| `FlowControl.Endpoint.Commit` | h2/src/flow.rs:352-356 | both counters and the pending credit take the endpoint values |
| `FlowControl.Pair.ReceiveData` | h2/src/flow.rs:206-231 | both endpoints of one DATA frame, or the connection refusal; the last frame of a stream refills the connection only |
| `FlowPeers.SendStepConserves` | h2/src/flow.rs:105-288 | one operation keeps committed minus value equal to the outstanding reservations of every window |
| `FlowPeers.ReservationsConserved` | h2/src/flow.rs:105-288 | the same over any interleaving of increase, adjust, send, reserve, accept and cancel |
| `FlowPeers.NarrowingIsExact` | h2/src/flow.rs:105-134 | after any run no narrowing cast of the next operation changes its value |
| `FlowPeers.DebitIsGreatest` | h2/src/flow.rs:198-254 | sending or reserving takes the limit or the whole of one credit, whichever is least, at least 1 when all are positive, and changes nothing else |
| `FlowPeers.SettlesExactly` | h2/src/flow.rs:257-288 | accepting spends and cancelling returns what was reserved, on the connection and the stream if it is still there |
| `FlowPeers.ShiftsExactly` | h2/src/flow.rs:105-134 | increments and settings changes shift both counters of one window, or change nothing exactly beyond the bounds |
| `FlowPeers.ThresholdIsHalf` | h2/src/flow.rs:48-51 | the announcement threshold is half of the target, rounded down, but never nothing |
| `FlowPeers.SendBalanced` | h2/src/flow.rs:239-254 | sending and reserving keep the two peers in balance |
| `FlowPeers.SettleBalanced` | h2/src/flow.rs:257-288 | accepting and cancelling keep the two peers in balance |
| `FlowPeers.DataAccepted` | h2/src/flow.rs:206-231 | DATA that the sender had credit for fits both receive windows |
| `FlowPeers.DataBalanced` | h2/src/flow.rs:206-231 | receiving DATA with refill keeps the two peers in balance |
| `FlowPeers.UpdateBalanced` | h2/src/flow.rs:105-119 | receiving WINDOW_UPDATE keeps the two peers in balance and never overflows |
| `FlowPeers.PeersNeverStall` | h2/src/flow.rs:193-356 | in every reachable state of two peers no flow-control error occurs on the connection or on a stream whose initial window did not change while open, and there receiver credit equals sender credit plus DATA and increments in flight |
| `FlowPeers.IdleConnectionHasCredit` | h2/src/flow.rs:68-83 | in every reachable state with nothing in flight or reserved the connection holds all credit but an unannounced rest below half of the target, so a stream with credit can send |
| `Deframer.BigEndianInverse` | grpc/src/message/mod.rs:183-190 | the four length bytes are a bijection |
| `Deframer.HeaderRoundTrip` | grpc/src/message/deframer.rs:31-46 | a header is accepted exactly when it is an encoded header within the limit |
| `Deframer.HeaderIsExact` | grpc/src/message/deframer.rs:31-47 | flags 0 and 1, the length as a sum of powers of 256, and both refusals, each exactly |
| `Deframer.ParseInvertsEncode` | grpc/src/message/mod.rs:183-190 | flat parsing of concatenated frames returns those frames |
| `Deframer.NextMeansParse` | grpc/src/message/deframer.rs:83-145 | one call finishes the next frame of the flat bytes, absorbs all input, or rejects; a rejection is sticky and consumes nothing more |
| `Deframer.ChunkingIsInvisible` | grpc/src/message/deframer.rs:83-155 | feeding any chunking agrees with parsing the concatenation |
| `Deframer.DeframeInvertsFrame` | grpc/src/message/deframer.rs:83-155 | any split of framed messages within the limit is deframed to exactly those messages |
| `Deframer.Deframer.Next` | grpc/src/message/deframer.rs:83-145 | the object follows the pure step |
| `Deframer.Deframer.NextBody` | grpc/src/message/deframer.rs:114-145 | body collection, with and without a held part |
| `Deframer.Deframer.Finish` | grpc/src/message/deframer.rs:147-155 | returns to the idle header state with the frame |
| `MessageCursor.Cursor.constructor` | grpc/src/message/mod.rs:200-208 | a cursor over non-empty segments holds their concatenation |
| `MessageCursor.Cursor.Advance` | grpc/src/message/mod.rs:241-253 | drops a prefix of the concatenation, across segments |
| `MessageCursor.Cursor.IsEqual` | grpc/src/message/mod.rs:214-229 | terminates, with flat equality |
| `MessageCursor.PayloadsEqual` | grpc/src/message/mod.rs:84-88 | plain frames are equal exactly when their bytes are, however segmented |
| `MessageCursor.WireFramesEqual` | grpc/src/message/mod.rs:92-97 | frames from the wire also compare their compression |
| `Redirect.RunIsBounded` | client/src/protocol/redirect.rs:259-288 | at most `limit` redirects are followed, all on the first target origin; the method changes only to GET, then without content |
| `Redirect.RewrittenOnce` | client/src/protocol/redirect.rs:173-195 | once rewritten the method stays GET without content at every later point |
| `Redirect.NoLoopWithinMethod` | client/src/protocol/redirect.rs:356-397 | two requests under one method never repeat a path and query |
| `Redirect.LoopExactlyOnRepeat` | client/src/protocol/redirect.rs:356-397 | with budget and a same-origin target a redirect is refused exactly when it repeats a request of the current phase without changing the method |
| `Redirect.AdvanceFacts` | client/src/protocol/redirect.rs:356-397 | one advance adds one target, on the same origin and new to its phase |
| `Redirect.HopFacts` | client/src/protocol/redirect.rs:259-288 | one followed response keeps everything a run has established |
| `Redirect.StatusDecides` | client/src/protocol/redirect.rs:173-195 | five statuses redirect and all others complete; 307 and 308 keep method and content, 303 becomes GET unless HEAD, 301 and 302 for POST only; a missing or undecodable location and an exhausted limit are refused |
| `Redirect.OriginsAreKept` | client/src/protocol/redirect.rs:113-122 | a redirect is refused as crossing origins exactly when the resolved target lacks the origin of the last one |
| `Redirect.History.Contains` | client/src/protocol/redirect.rs:151-160 | searches the current target and the last earlier ones of the phase |
| `Redirect.History.Push` | client/src/protocol/redirect.rs:162-170 | the current target joins the earlier ones |
| `Redirect.State.New` | client/src/protocol/redirect.rs:315-333 | borrows the path or starts a history with the resolved target |
| `Redirect.State.Advance` | client/src/protocol/redirect.rs:356-397 | the object follows the pure advance, with its errors |
| `Sources.Cursor.Fill` | h3/src/sources.rs:35-43 | reaches the next non-empty chunk or records exhaustion, losing nothing |
| `Sources.Cursor.Peek` | h3/src/sources.rs:49-52 | the first byte of the concatenation, or of what is still current when nothing is announced |
| `Sources.Cursor.Advance` | h3/src/sources.rs:54-71 | drops a prefix of the concatenation; refuses more than announced; reports a short source |
| `Sources.Cursor.CopyInto` | h3/src/sources.rs:73-92 | copies a prefix of the concatenation and leaves the rest of the output |
| `Sources.Cursor.Take` | h3/src/sources.rs:94-103 | a span of exactly the next bytes, when they are there; a short source is left exhausted |
| `Sources.Cursor.IntoSpan` | h3/src/sources.rs:105-110 | a span of announced bytes, whether or not the source holds them |
| `Sources.Span.ToForm` | h3/src/sources.rs:153-160 | contiguous exactly when the first non-empty chunk covers the span |
| `Sources.Span.Suffix` | h3/src/sources.rs:169-176 | the suffix of the flat bytes, for every offset that range and bytes reach |
| `Sources.Span.Chunks` | h3/src/sources.rs:162-167 | a traversal holding exactly the span |
| `Sources.Bounded.Next` | h3/src/sources.rs:185-203 | yields non-empty pieces whose concatenation is the range |
| `Sources.Gather` | h3/src/sources.rs:182-203 | visiting every chunk of a span gives its bytes |
| `Varint.UnrolledIsGroups` | grpc/src/encode/varint.rs:17-91 | the unrolled encoder writes the textbook base-128 groups, for every 64-bit value |
| `Varint.VarintRoundTrip` | grpc/src/encode/varint.rs:17-111 | decoding returns the value and what follows; no shorter encoding exists |
| `Varint.FieldRoundTrip` | grpc/src/encode/field.rs:13-29 | reading a written field returns its tag, value and what follows; an empty value writes nothing |
| `JsonString.StringsAreExact` | json/src/source/string.rs:175-331 | the automaton is at rest after exactly the sequences of string units of RFC 8259 section 7 over RFC 3629 UTF-8 with paired surrogates, and has decoded their meaning |
| `JsonUnicode.ScalarIsRead` | json/src/source/string.rs:125-145 | a decoder for section 3 of RFC 3629 reads every encoded scalar value back, whatever follows |
| `JsonUnicode.ReadIsScalar` | json/src/source/string.rs:125-145 | that decoder reads nothing else: one encoding per scalar value, of the shortest length |
| `JsonUnicode.TableIsDecoder` | json/src/source/string.rs:227-265 | the byte ranges accepted for a longer encoding are exactly what that decoder reads |
| `JsonUnicode.PairIsUtf16` | json/src/source/string.rs:296-301 | a surrogate pair is the UTF-16 form of the code point it decodes to |
| `JsonUnicode.ShortIsNamed` | json/src/source/string.rs:269-279 | the eight short escapes stand for the characters of section 7 of RFC 8259, and there are no others |
| `JsonUnicode.HexIsPositional` | json/src/source/string.rs:285-288 | four digits of either case, by their place in the alphabet, have the positional value |
| `JsonUnicode.StringsMeanCharacters` | json/src/source/string.rs:175-331 | the automaton is at rest having decoded x exactly when the input writes, as section 7 does, the characters whose code points x encodes |
| `JsonString.UnitsRead` | json/src/source/string.rs:227-331 | every sequence of units is accepted with its meaning |
| `JsonString.RunSplits` | json/src/source/string.rs:227-331 | whatever has been consumed is complete units and one broken-off unit, for every state |
| `JsonString.RemovedIsExact` | json/src/source/string.rs:326-329 | the removed count never underflows, is raw minus decoded length, and at rest is zero exactly when decoding changes nothing |
| `JsonString.HexDigitBranchFree` | json/src/source/string.rs:285-288 | the branch-free digit is the digit |
| `JsonText.Text.Advance` | json/src/source/string.rs:175-331 | the automaton updated in place: new state, decoded bytes, and exactly what a refusal leaves behind; what whole runs decode to is JsonUnicode.StringsMeanCharacters |
| `JsonText.RefusalKeepsExactly` | json/src/source/string.rs:302-309 | a refused byte leaves the escape state as it was exactly when it does not complete a lone low surrogate |
| `JsonText.LoneLowForgets` | json/src/source/string.rs:302-309 | an input that reaches the exception |
| `JsonSurrogates.LooseIsAcceptedExactly` | json/src/source/string.rs:285-310 | a string of RFC 8259 section 7 as it stands is accepted exactly when every high surrogate is followed at once by a low one and no other low one occurs |
| `JsonSurrogates.AcceptedIsLoose` | json/src/source/string.rs:227-331 | nothing outside section 7 is accepted |
| `JsonSurrogates.LoneHighRefused` | json/src/source/string.rs:302-304 | a string of section 7 that is refused |
| `JsonScan.AsciiWordMeansLanes` | json/src/bytes/mod.rs:10-19 | eight bytes pass the word test exactly when each is plain ASCII |
| `JsonScan.WordMeansLanes` | json/src/bytes/mod.rs:10-19 | the same without the ASCII condition |
| `JsonScan.PlainWordMeansBytes` | json/src/bytes/mod.rs:10-19 | the same about the bytes in memory |
| `JsonScan.PlainByteIsQuiet` | json/src/source/string.rs:207-225 | a byte is plain exactly when it changes nothing and stands for itself |
| `JsonScan.Skip` | json/src/source/string.rs:207-225 | the longest run that leaves the automaton as it is, words first |
| `JsonScan.ReplayAgrees` | json/src/source/string.rs:73-86 | unchecked replay decodes the same bytes as the checked automaton on what that accepts |
| `JsonAtom.AtomsAreExact` | json/src/segment/atom.rs:90-168 | an atom is accepted with a kind exactly when it is a literal or number of RFC 8259 sections 3 and 6 of that kind |
| `JsonAtom.NumeralIsRecognised` | json/src/segment/atom.rs:62-88 | every number of the grammar is recognised, with its 64-bit value when asked and possible |
| `JsonAtom.RecognisedIsNumeral` | json/src/segment/atom.rs:62-88 | only numbers of the grammar are |
| `JsonAtom.WordsAreExact` | json/src/segment/atom.rs:22-45 | only the three literals are accepted among words |
| `JsonAtom.PushKeeps` | json/src/segment/atom.rs:131-135 | checked digit accumulation is the value while it fits and stays lost afterwards |
| `JsonAtom.DelimitersEndAtoms` | json/src/nesting.rs:143-150 | no accepted byte of an atom is a delimiter |
| `JsonGrammar.StartMeansItems` | json/src/nesting.rs:198-223 | what may follow where an item is due is exactly a list of items and the closing bracket |
| `JsonGrammar.OpenMeansGroup` | json/src/nesting.rs:179-187 | what may follow an opening bracket is exactly the inside of a group |
| `JsonNesting.SpaceIsQuiet` | json/src/nesting.rs:173-176 | whitespace between tokens changes nothing, in every phase |
| `JsonNesting.ValueByte` | json/src/nesting.rs:226-243 | the first byte of a value leads to exactly what may follow it |
| `JsonNesting.TransitionExact` | json/src/nesting.rs:173-224 | a structural byte is taken exactly when something completes the container after it |
| `JsonNesting.ByteExact` | json/src/nesting.rs:110-152 | the same for strings and atoms |
| `JsonNesting.StepExact` | json/src/nesting.rs:110-171 | one step takes exactly the bytes that can be completed, to a state completed by exactly the remaining texts |
| `JsonNesting.RunExact` | json/src/nesting.rs:110-171 | a run completes at the last byte exactly on the texts the state accepts |
| `JsonNesting.NestingIsExact` | json/src/nesting.rs:74-171 | after an opening bracket completion is reported first at the end of exactly one object or array of RFC 8259 nested within the limit |
| `JsonNesting.DepthIsExact` | json/src/nesting.rs:226-243 | a byte is refused as too deep exactly when it opens a container that one more level admits; otherwise the limit changes nothing |
| `JsonNesting.StartIsExact` | json/src/nesting.rs:78-93 | a container begins exactly at a bracket with a level to spare, else the depth or the byte is refused |
| `JsonCharacters.ClassesAreNamed` | json/src/segment/atom.rs:60-90 | whitespace, digits, marks, signs and the ends of an atom, by their characters |
| `JsonCharacters.LiteralsAreNamed` | json/src/segment/atom.rs:23-28 | the three literals, by their characters |
| `JsonCharacters.PunctuationIsNamed` | json/src/nesting.rs:173-224 | groups, members and strings, by their characters |
| `JsonReplay.StepShadow` | json/src/nesting.rs:111-133 | one replay step follows one accepted checked step |
| `JsonReplay.ReplayAgrees` | json/src/nesting.rs:96-133 | on a document the checked tracker accepts, replay reports the checked depth after every byte and completion at the same byte |
| `JsonReplay.SkippedIsQuiet` | json/src/nesting.rs:55-70 | bytes a replay skips change nothing |
| `JsonPacked.PutGet` | json/src/nesting.rs:261-264 | a nibble reads back what was set and the other fifteen keep theirs |
| `JsonPacked.StoredAt` | json/src/nesting.rs:245-273 | storing a phase changes that container only |
| `JsonPacked.SetTop` | json/src/nesting.rs:261-273 | setting the top nibble replaces the top of the phase sequence |
| `JsonPacked.Nesting.StartDepth` | json/src/nesting.rs:78-93 | one container of the opened kind, or the refusal of the depth or the byte |
| `JsonPacked.Nesting.Admitted` | json/src/nesting.rs:96-106 | the replay start state |
| `JsonPacked.Nesting.Phase` | json/src/nesting.rs:245-259 | reads the top phase; the word index is in range |
| `JsonPacked.Nesting.Set` | json/src/nesting.rs:261-273 | writes the top nibble; the word index is in range |
| `JsonPacked.Nesting.Push` | json/src/nesting.rs:159-164 | adds one container |
| `JsonPacked.Nesting.Commit` | json/src/nesting.rs:153-169 | the packed words follow the phase sequence through every change |
| `JsonPacked.Nesting.Step` | json/src/nesting.rs:110-171 | the packed tracker follows the sequence tracker; a rejected byte leaves every word and field unchanged; replay follows its own step, its counter wrapping as an unchecked byte does |
| `JsonPacked.Nesting.Skip` | json/src/nesting.rs:50-72 | every skipped byte is one the tracker would take without changing, and the run ends where that stops |
| `JsonInput.WithinScan` | json/src/input.rs:208-217 | a position within the limit lies inside the scanned part, so every unchecked slice is in range |
| `JsonInput.OverrunIsLast` | json/src/input.rs:208-217 | no position before a scanned one is over the limit |
| `JsonInput.LimitsAreExact` | json/src/input.rs:208-212 | a limit admits exactly the positions up to start, overhead and capacity, and reports the length beyond |
| `JsonInput.SkipGroup` | json/src/input.rs:354-360 | passing over a quiet run and checking once is scanning it byte by byte |
| `JsonInput.PassOver` | json/src/input.rs:355-358 | the slice taken is in range and the run may be passed over |
| `JsonInput.GroupFrom` | json/src/input.rs:354-369 | the skipping loop returns what the byte-at-a-time scan with a limit check at each byte returns, error included |
| `JsonInput.GroupAt` | json/src/input.rs:343-370 | the same from the opening bracket |
| `JsonInput.GroupsAreExact` | json/src/input.rs:343-370 | a container scan succeeds exactly on an object or array of the grammar within depth and limit, and ends right after it |
| `JsonValues.StringWith` | json/src/input.rs:304-341 | the skipping loop returns what the byte-at-a-time scan with a limit check at each byte returns, error included |
| `JsonValues.SkipString` | json/src/input.rs:314-318 | passing over a plain run and checking once is scanning it byte by byte |
| `JsonValues.StringsAreScanned` | json/src/input.rs:304-341 | a string scan succeeds exactly on quoted content of the grammar within the limit |
| `JsonValues.SpansAreExact` | json/src/input.rs:324-336 | the span is the content, `decoded_len` the length it decodes to, `escaped` whether decoding changes it |
| `JsonValues.AtomWith` | json/src/input.rs:277-298 | the loop is the byte-at-a-time scan |
| `JsonValues.AtomsAreScanned` | json/src/input.rs:277-298 | an atom scan succeeds exactly on a delimited atom of the grammar within the limit; an integer scan exactly on integers of at most 64 bits |
| `JsonValues.ValueWith` | json/src/input.rs:261-275 | dispatches on the first byte |
| `JsonValues.ValuesAreExact` | json/src/input.rs:261-275 | a value scan succeeds exactly on a value of RFC 8259 within depth and limit and ends right after it |
| `JsonValues.WsAt` | json/src/input.rs:389-395 | the first position that holds no whitespace |
| `JsonValues.SkipDepth` | json/src/input.rs:93-97 | succeeds exactly when whitespace and one value stand at the index; on failure the index stays |
| `JsonValues.ParseU64` | json/src/input.rs:105-116 | returns the value of an unsigned integer of at most 64 bits, and fails on everything else without moving |

## Left out

- Duplex buffers: a FIFO of byte strings that drops empty inputs; receipts, segment chains and memory release are not modelled.
- Duplex `into_inner` and the `Access` and `Hold` views: read-only projections of the state.
- Deadline heap: the o3 heap is not part of this model; `Agenda.FirstEntry` selects a least key by scanning, so the order among equal keys and the heap's own change report are left open.
- DeadlineAgenda.Agenda.Cancel: the report comes from comparing the least priority before and after; the o3 heap's own change report is not part of this model.
- DeadlineAgenda.Agenda.CancelOne: the report comes from comparing the least priority before and after, for the same reason.
- Deadline `Exact` book: not part of this model.
- FlowPeers.PeersNeverStall: makes no claim about the windows of a stream once its initial window changed while it was open, where the two ends disagree for a while; what the peers then do with that stream is not modelled. `FlowPeers.ReservationsConserved` and `FlowPeers.NarrowingIsExact` cover such streams too.
- Route compiler: only the control structure of the emitted tokens; spans, identifiers and the text of the diagnostics are not modelled.
- Redirect: URI parsing and normalisation are functions given as parameters; allocation failures, the committed-request wrapper around errors and `history_capacity` are not modelled.
- Redirect `Machine::response` is a pure function on values, since the machine is consumed and rebuilt by each call.
- Message payloads: `try_flatten`, `DataChunk` and reference counting are not modelled; an empty segment inside a payload cannot occur and is excluded.
- HTTP/3 `Cursor::prefixed`: the integer continuation it delegates to is not part of this model.
- JSON atoms are values passed along by the scanners, as the code passes them.
- JSON `Scan`, `Decoder`, segmented documents and frames: the segmented scanner is not modelled.
- JSON `expect_prop`, `parse_bool`, `parse_i64`, `inline_plain` and `inline_depth`: thin wrappers over the scanners proved here.
- JsonPacked.Nesting.Step: the replay counter wraps at a byte; a build with overflow checks stops there instead. `JsonReplay.ReplayAgrees` shows that no document the checked tracker accepts reaches that point.
- Status mapping, configuration, metadata, retry policy and I/O layers: they would add only easy members.
