/**
 The deadline agenda over many exchanges: a keyed minimum of possibly stale
 instants, against an eager book that holds every effective instant.
 */
module DeadlineAgenda {
  import opened Common
  import opened DeadlineTimeline

  datatype Action = Expire(phase: Phase) | Wake(reason: nat)

  datatype Scheduled = Scheduled(at: int, action: Action)

  /** Expiries precede wakes at one instant. */
  predicate ActionAtMost(a: Action, b: Action) {
    match (a, b)
    case (Expire(l), Expire(r)) => Rank(l) <= Rank(r)
    case (Expire(_), Wake(_)) => true
    case (Wake(_), Expire(_)) => false
    case (Wake(l), Wake(r)) => l <= r
  }

  predicate NotAfter(a: Scheduled, b: Scheduled) {
    a.at < b.at || (a.at == b.at && ActionAtMost(a.action, b.action))
  }

  datatype WakeAt = WakeAt(at: int, reason: nat)

  function FromExpiry(e: Option<Expiry>): Option<Scheduled> {
    if e.None? then None else Some(Scheduled(e.value.at, Expire(e.value.phase)))
  }

  function FromWake(w: Option<WakeAt>): Option<Scheduled> {
    if w.None? then None else Some(Scheduled(w.value.at, Wake(w.value.reason)))
  }

  function First(a: Option<Scheduled>, b: Option<Scheduled>): Option<Scheduled> {
    if a.None? then b else if b.None? || NotAfter(a.value, b.value) then a else b
  }

  // ------------------------------------------------------- one lane set

  datatype Lane = Lane(times: Times, wake: Option<WakeAt>) {
    function Next(): Option<Scheduled> {
      First(FromExpiry(times.lanes.Next()), FromWake(wake))
    }

    function Resident(a: Action): Option<Scheduled> {
      match a
      case Expire(p) => FromExpiry(times.lanes.Get(LaneOf(p)))
      case Wake(_) => FromWake(wake)
    }

    function Set(item: Scheduled): Lane {
      match item.action
      case Expire(p) => this.(times := times.Set(item.at, p))
      case Wake(reason) => this.(wake := Some(WakeAt(item.at, reason)))
    }

    function Retire(a: Action): Lane {
      match a
      case Expire(p) => this.(times := times.ClearPhase(p))
      case Wake(reason) => if wake.Some? && wake.value.reason == reason then this.(wake := None) else this
    }

    function Transition(c: Clock, step: Transition, now: int): Lane {
      Lane(times.Apply(c, step, now), if step == Retired then None else wake)
    }

    /** One visit: renew a stale body-idle deadline, or retire what is due. */
    function Visit(item: Scheduled): (Lane, bool) {
      var (times', renewed) := if item.action == Expire(BodyIdle) then times.Refresh(item.at) else (times, false);
      (if renewed then this.(times := times') else Lane(times', wake).Retire(item.action), renewed)
    }

    function View(): Slots {
      Slots(times.Effective(), wake)
    }
  }

  const EmptyLane := Lane(Empty, None)

  /** The effective instants of one exchange. */
  datatype Slots = Slots(lanes: Lanes, wake: Option<WakeAt>) {
    predicate Has(item: Scheduled) {
      match item.action
      case Expire(p) => lanes.Get(LaneOf(p)) == Some(Expiry(item.at, p))
      case Wake(reason) => wake == Some(WakeAt(item.at, reason))
    }

    function Put(item: Scheduled): Slots {
      match item.action
      case Expire(p) => this.(lanes := lanes.Set(LaneOf(p), Some(Expiry(item.at, p))))
      case Wake(reason) => this.(wake := Some(WakeAt(item.at, reason)))
    }

    function Drop(a: Action): Slots {
      match a
      case Expire(p) => this.(lanes := lanes.Set(LaneOf(p), None))
      case Wake(_) => this.(wake := None)
    }

    /** The entry for exactly this action. */
    predicate Holds(a: Action) {
      match a
      case Expire(p) => lanes.Get(LaneOf(p)).Some? && lanes.Get(LaneOf(p)).value.phase == p
      case Wake(reason) => wake.Some? && wake.value.reason == reason
    }
  }

  const NoSlots := Slots(NoLanes, None)

  /** The stale minimum precedes every effective instant, and is the resident of its lane. */
  lemma NextPrecedes(l: Lane)
    requires l.times.Valid()
    ensures l.Next().None? <==> l.View() == NoSlots
    ensures l.Next().Some? ==> l.Resident(l.Next().value.action) == l.Next()
    ensures forall item :: l.View().Has(item) ==> l.Next().Some? && NotAfter(l.Next().value, item)
  {
    NextIsLeast(l.times.lanes);
    forall item | l.View().Has(item) ensures l.Next().Some? && NotAfter(l.Next().value, item) {
      if item.action.Expire? {
        var lane := LaneOf(item.action.phase);
        assert l.times.lanes.Get(lane).Some?;
        assert AtMost(l.times.lanes.Next().value, l.times.lanes.Get(lane).value);
      }
    }
  }

  /** Visiting the minimum either renews without effect, or retires an exact instant. */
  lemma VisitRefines(l: Lane, item: Scheduled)
    requires l.times.Valid() && l.Next() == Some(item)
    ensures var (after, renewed) := l.Visit(item);
            && after.times.Valid()
            && (renewed ==> after.View() == l.View() && l.times.progress.Some? && after.times.progress.None?)
            && (!renewed ==> l.View().Has(item) && after.View() == l.View().Drop(item.action))
            && (after.times.progress.Some? ==> l.times.progress.Some?)
  {
    NextPrecedes(l);
  }

  // ------------------------------------------------------- the book

  datatype Key = Key(index: nat, generation: nat)

  datatype Entry = Entry(key: Key, priority: Scheduled, lane: Lane)

  type Book = map<nat, Entry>

  datatype EagerEntry = EagerEntry(key: Key, slots: Slots)

  type EagerBook = map<nat, EagerEntry>

  /** Every resident has its lane's minimum as heap key. */
  ghost predicate Consistent(b: Book, capacity: nat) {
    forall i :: i in b ==>
      i < capacity && b[i].key.index == i && b[i].lane.times.Valid() && b[i].lane.Next() == Some(b[i].priority)
  }

  function View(b: Book): EagerBook {
    map i | i in b :: EagerEntry(b[i].key, b[i].lane.View())
  }

  /** Stores a lane under its minimum, or nothing when it is empty. */
  function Store(b: Book, key: Key, lane: Lane): Book {
    if lane.Next().None? then b - {key.index} else b[key.index := Entry(key, lane.Next().value, lane)]
  }

  function EagerStore(e: EagerBook, key: Key, slots: Slots): EagerBook {
    if slots == NoSlots then e - {key.index} else e[key.index := EagerEntry(key, slots)]
  }

  lemma StoreRefines(b: Book, capacity: nat, key: Key, lane: Lane)
    requires Consistent(b, capacity) && key.index < capacity && lane.times.Valid()
    ensures Consistent(Store(b, key, lane), capacity)
    ensures View(Store(b, key, lane)) == EagerStore(View(b), key, lane.View())
  {
    NextPrecedes(lane);
  }

  // ------------------------------------------------------- popping

  ghost predicate IsFirst(b: Book, i: nat) {
    i in b && forall j :: j in b ==> NotAfter(b[i].priority, b[j].priority)
  }

  datatype Poll = Idle | Renewed | Expired(key: Key, item: Scheduled)

  /** Visits the resident `i`, known to be first and due. */
  function PollAt(b: Book, i: nat): (Book, Poll)
    requires i in b
  {
    var Entry(key, item, lane) := b[i];
    var (after, renewed) := lane.Visit(item);
    (Store(b, key, after), if renewed then Renewed else Expired(key, item))
  }

  /** An instant held by some exchange. */
  ghost predicate Held(e: EagerBook, i: nat, item: Scheduled) {
    i in e && e[i].slots.Has(item)
  }

  ghost predicate Least(e: EagerBook, item: Scheduled) {
    forall i, other :: Held(e, i, other) ==> NotAfter(item, other)
  }

  /** Residents that still owe a renewal; every one is visited at most once for it. */
  function Unspent(b: Book): set<nat> {
    set i | i in b && b[i].lane.times.progress.Some?
  }

  lemma PollRefines(b: Book, capacity: nat, i: nat)
    requires Consistent(b, capacity) && IsFirst(b, i)
    ensures var (after, poll) := PollAt(b, i);
            && Consistent(after, capacity)
            && match poll
               case Idle => false
               case Renewed => View(after) == View(b) && Unspent(after) < Unspent(b)
               case Expired(key, item) =>
                 key == b[i].key && item == b[i].priority
                 && Held(View(b), i, item) && Least(View(b), item)
                 && View(after) == EagerStore(View(b), key, View(b)[i].slots.Drop(item.action))
  {
    var Entry(key, item, lane) := b[i];
    VisitRefines(lane, item);
    var (visited, renewed) := lane.Visit(item);
    StoreRefines(b, capacity, key, visited);
    NextPrecedes(lane);
    var e := View(b);
    forall j, other | Held(e, j, other) ensures NotAfter(item, other) {
      NextPrecedes(b[j].lane);
      assert NotAfter(item, b[j].priority) && NotAfter(b[j].priority, other);
    }
    if renewed {
      assert e[i] == EagerEntry(key, lane.View());
      assert i in Unspent(b) && i !in Unspent(Store(b, key, visited));
    }
  }

  lemma NothingDue(b: Book, capacity: nat, now: int)
    requires Consistent(b, capacity)
    requires forall i :: i in b ==> b[i].priority.at > now
    ensures forall i, item :: Held(View(b), i, item) ==> item.at > now
  {
    forall i, item | Held(View(b), i, item) ensures item.at > now {
      NextPrecedes(b[i].lane);
    }
  }

  function EagerPopped(e: EagerBook, i: nat, item: Scheduled): EagerBook
    requires i in e
  {
    EagerStore(e, e[i].key, e[i].slots.Drop(item.action))
  }

  /** What is left after a pop is never earlier than what was popped. */
  lemma PopsAscend(e: EagerBook, i: nat, item: Scheduled, j: nat, next: Scheduled)
    requires i in e && e[i].key.index == i && Least(e, item)
    requires Held(EagerPopped(e, i, item), j, next)
    ensures NotAfter(item, next)
  {
    assert Held(e, j, next);
  }

  // ------------------------------------------------------- the other operations

  datatype Error = OutOfRange(key: Key, capacity: nat) | Conflict(requested: Key, current: Key)

  /** Why a key cannot name a slot, if it cannot. */
  function Refusal(occupied: Option<Key>, key: Key, capacity: nat): Option<Error> {
    if key.index >= capacity then Some(OutOfRange(key, capacity))
    else if occupied.Some? && occupied.value != key then Some(Conflict(key, occupied.value))
    else None
  }

  function Occupant(b: Book, i: nat): Option<Key> {
    if i in b then Some(b[i].key) else None
  }

  function LaneAt(b: Book, i: nat): Lane {
    if i in b then b[i].lane else EmptyLane
  }

  function SlotsAt(e: EagerBook, i: nat): Slots {
    if i in e then e[i].slots else NoSlots
  }

  datatype Op =
    | Schedule(key: Key, item: Scheduled)
    | Cancel(key: Key)
    | CancelOne(key: Key, action: Action)
    | Transit(key: Key, change: Transition, now: int)

  /** One operation on the lazy book; refused ones change nothing. */
  function Perform(b: Book, capacity: nat, c: Clock, op: Op): Book {
    var key := op.key;
    if Refusal(Occupant(b, key.index), key, capacity).Some? then b
    else
      var lane := LaneAt(b, key.index);
      match op
      case Schedule(_, item) => if lane.Resident(item.action) == Some(item) then b else Store(b, key, lane.Set(item))
      case Cancel(_) => b - {key.index}
      case CancelOne(_, action) =>
        if lane.Resident(action).Some? && lane.Resident(action).value.action == action then
          Store(b, key, lane.Retire(action))
        else b
      case Transit(_, change, now) => Store(b, key, lane.Transition(c, change, now))
  }

  /** The same operation on effective instants. */
  function EagerPerform(e: EagerBook, capacity: nat, c: Clock, op: Op): EagerBook {
    var key := op.key;
    if Refusal(if key.index in e then Some(e[key.index].key) else None, key, capacity).Some? then e
    else
      var slots := SlotsAt(e, key.index);
      match op
      case Schedule(_, item) => EagerStore(e, key, slots.Put(item))
      case Cancel(_) => e - {key.index}
      case CancelOne(_, action) => if slots.Holds(action) then EagerStore(e, key, slots.Drop(action)) else e
      case Transit(_, change, now) =>
        EagerStore(e, key, Slots(EagerApply(slots.lanes, c, change, now),
                                 if change == Retired then None else slots.wake))
  }

  /** The operation re-installs a stale body-idle instant under later progress. */
  predicate KeepsProgress(b: Book, capacity: nat, c: Clock, op: Op) {
    && Refusal(Occupant(b, op.key.index), op.key, capacity).None?
    && op.key.index in b
    && match op
       case Schedule(_, Scheduled(at, Expire(BodyIdle))) => Reinstalls(b[op.key.index].lane.times, Some(at))
       case Transit(_, HeadAdmitted, now) =>
         Reinstalls(b[op.key.index].lane.times, c.Instant(BodyIdle, now))
       case _ => false
  }

  lemma LaneRefines(l: Lane, c: Clock, op: Op)
    requires l.times.Valid()
    ensures op.Schedule? ==>
              && l.Set(op.item).times.Valid() && l.Set(op.item).View() == l.View().Put(op.item)
              && (l.Resident(op.item.action) == Some(op.item) ==>
                    (l.View() == l.View().Put(op.item) <==>
                     !(op.item.action == Expire(BodyIdle) && Reinstalls(l.times, Some(op.item.at)))))
    ensures op.CancelOne? ==>
              && (l.View().Holds(op.action) <==>
                    l.Resident(op.action).Some? && l.Resident(op.action).value.action == op.action)
              && (l.View().Holds(op.action) ==>
                    l.Retire(op.action).times.Valid() && l.Retire(op.action).View() == l.View().Drop(op.action))
    ensures op.Transit? ==>
              && l.Transition(c, op.change, op.now).times.Valid()
              && (l.Transition(c, op.change, op.now).View()
                    == Slots(EagerApply(l.View().lanes, c, op.change, op.now),
                             if op.change == Retired then None else l.View().wake)
                  <==> !(op.change == HeadAdmitted && Reinstalls(l.times, c.Instant(BodyIdle, op.now))))
  {
    if op.Transit? {
      ApplyRefinesExactly(l.times, c, op.change, op.now);
    }
  }

  /** Every operation acts eagerly on the effective instants, but for that re-installation. */
  lemma PerformRefinesExactly(b: Book, capacity: nat, c: Clock, op: Op)
    requires Consistent(b, capacity)
    ensures Consistent(Perform(b, capacity, c, op), capacity)
    ensures View(Perform(b, capacity, c, op)) == EagerPerform(View(b), capacity, c, op)
       <==> !KeepsProgress(b, capacity, c, op)
  {
    var key := op.key;
    var i := key.index;
    var lane := LaneAt(b, i);
    if Refusal(Occupant(b, i), key, capacity).None? {
      LaneRefines(lane, c, op);
      assert SlotsAt(View(b), i) == lane.View();
      match op {
        case Schedule(_, item) =>
          StoreRefines(b, capacity, key, lane.Set(item));
          if i in b { Unstored(b, capacity, key); }
        case CancelOne(_, action) =>
          if lane.View().Holds(action) { StoreRefines(b, capacity, key, lane.Retire(action)); }
        case Transit(_, change, now) =>
          StoreRefines(b, capacity, key, lane.Transition(c, change, now));
          DistinctSlots(View(b), key, lane.Transition(c, change, now).View(),
                        Slots(EagerApply(lane.View().lanes, c, change, now),
                              if change == Retired then None else lane.View().wake));
        case Cancel(_) =>
      }
    }
  }

  /** Storing what is already there changes nothing. */
  lemma Unstored(b: Book, capacity: nat, key: Key)
    requires Consistent(b, capacity) && key.index in b && b[key.index].key == key
    ensures EagerStore(View(b), key, b[key.index].lane.View()) == View(b)
  {
    NextPrecedes(b[key.index].lane);
  }

  lemma DistinctSlots(e: EagerBook, key: Key, x: Slots, y: Slots)
    ensures EagerStore(e, key, x) == EagerStore(e, key, y) <==> x == y
  {
    assert key.index in EagerStore(e, key, x) <==> x != NoSlots;
    assert key.index in EagerStore(e, key, y) <==> y != NoSlots;
    assert x != NoSlots ==> EagerStore(e, key, x)[key.index].slots == x;
    assert y != NoSlots ==> EagerStore(e, key, y)[key.index].slots == y;
  }

  // ------------------------------------------------------- runs

  datatype RunOp = Do(op: Op) | Visit(now: int)

  /** What a caller sees of one step. */
  datatype Report = Performed | Polled(poll: Poll)

  ghost predicate NoneDue(b: Book, now: int) {
    forall i :: i in b ==> b[i].priority.at > now
  }

  /** One poll: any due resident that no other precedes may be the one visited. */
  ghost predicate PollStep(b: Book, now: int, p: Poll, after: Book) {
    if NoneDue(b, now) then p == Idle && after == b
    else exists i :: IsFirst(b, i) && b[i].priority.at <= now && (after, p) == PollAt(b, i)
  }

  ghost predicate LazyStep(b: Book, capacity: nat, c: Clock, op: RunOp, r: Report, after: Book) {
    match op
    case Do(op) => r == Performed && after == Perform(b, capacity, c, op)
    case Visit(now) => r.Polled? && PollStep(b, now, r.poll, after)
  }

  /** The agenda carries out `ops` with these reports, ending in `end`. */
  ghost predicate Executes(b: Book, capacity: nat, c: Clock, ops: seq<RunOp>, reports: seq<Report>, end: Book)
    decreases ops
  {
    if ops == [] then reports == [] && end == b
    else
      && reports != []
      && exists mid :: LazyStep(b, capacity, c, ops[0], reports[0], mid)
                       && Executes(mid, capacity, c, ops[1..], reports[1..], end)
  }

  /** `item` is least and due among all effective instants, and leaves the book. */
  ghost predicate Expires(e: EagerBook, i: nat, now: int, key: Key, item: Scheduled, after: EagerBook) {
    && Held(e, i, item) && e[i].key == key && item.at <= now && Least(e, item)
    && after == EagerPopped(e, i, item)
  }

  /** What a poll may report when every effective instant is known. */
  ghost predicate EagerPollStep(e: EagerBook, now: int, p: Poll, after: EagerBook) {
    match p
    case Idle => after == e && forall i, item :: Held(e, i, item) ==> item.at > now
    case Renewed => after == e
    case Expired(key, item) => exists i :: Expires(e, i, now, key, item, after)
  }

  ghost predicate EagerStep(e: EagerBook, capacity: nat, c: Clock, op: RunOp, r: Report, after: EagerBook) {
    match op
    case Do(op) => r == Performed && after == EagerPerform(e, capacity, c, op)
    case Visit(now) => r.Polled? && EagerPollStep(e, now, r.poll, after)
  }

  /** The reports are right for a book that always holds the effective instants. */
  ghost predicate Explains(e: EagerBook, capacity: nat, c: Clock, ops: seq<RunOp>, reports: seq<Report>, end: EagerBook)
    decreases ops
  {
    if ops == [] then reports == [] && end == e
    else
      && reports != []
      && exists mid :: EagerStep(e, capacity, c, ops[0], reports[0], mid)
                       && Explains(mid, capacity, c, ops[1..], reports[1..], end)
  }

  /** Transitions read a clock that does not run backwards, and no body-idle instant
      is scheduled before the end of a window opened now. */
  predicate OnTime(ops: seq<RunOp>, c: Clock, clock: int)
    decreases ops
  {
    ops != [] ==> OpOnTime(ops[0], c, clock) && OnTime(ops[1..], c, ClockAfter(ops[0], clock))
  }

  predicate OpOnTime(op: RunOp, c: Clock, clock: int) {
    match op
    case Do(Transit(_, _, now)) => clock <= now
    case Do(Schedule(_, item)) =>
      item.action == Expire(BodyIdle) && c.window(BodyIdle).Some? ==> c.Instant(BodyIdle, clock).value <= item.at
    case _ => true
  }

  function ClockAfter(op: RunOp, clock: int): int {
    match op
    case Do(Transit(_, _, now)) => now
    case _ => clock
  }

  /** Retained progress ends no later than a window opened at `clock`. */
  predicate Recent(t: Times, c: Clock, clock: int) {
    t.progress.Some? ==> c.window(BodyIdle).Some? && t.progress.value <= c.Instant(BodyIdle, clock).value
  }

  ghost predicate AllRecent(b: Book, c: Clock, clock: int) {
    forall i :: i in b ==> Recent(b[i].lane.times, c, clock)
  }

  lemma ApplyRecent(t: Times, c: Clock, clock: int, step: DeadlineTimeline.Transition, now: int)
    requires c.Monotone() && clock <= now && Recent(t, c, clock)
    ensures Recent(t.Apply(c, step, now), c, now)
    ensures !Reinstalls(t, c.Instant(BodyIdle, now))
  {
    if c.window(BodyIdle).Some? {
      assert c.add(clock, c.window(BodyIdle).value) <= c.add(now, c.window(BodyIdle).value);
    }
  }

  lemma ClockMoves(b: Book, c: Clock, clock: int, now: int)
    requires c.Monotone() && clock <= now && AllRecent(b, c, clock)
    ensures AllRecent(b, c, now)
  {
    if c.window(BodyIdle).Some? {
      assert c.add(clock, c.window(BodyIdle).value) <= c.add(now, c.window(BodyIdle).value);
    }
  }

  /** An operation on time never re-installs under progress. */
  lemma PerformOnTime(b: Book, capacity: nat, c: Clock, clock: int, op: Op)
    requires c.Monotone() && AllRecent(b, c, clock) && OpOnTime(Do(op), c, clock)
    ensures !KeepsProgress(b, capacity, c, op)
    ensures AllRecent(Perform(b, capacity, c, op), c, ClockAfter(Do(op), clock))
  {
    var lane := LaneAt(b, op.key.index);
    assert Recent(lane.times, c, clock);
    if op.Transit? {
      ClockMoves(b, c, clock, op.now);
      ApplyRecent(lane.times, c, clock, op.change, op.now);
    }
  }

  lemma ExpiryExplained(b: Book, i: nat, now: int, p: Poll, after: Book)
    requires i in b && b[i].priority.at <= now
    requires match p
             case Idle => false
             case Renewed => View(after) == View(b)
             case Expired(key, item) =>
               key == b[i].key && item == b[i].priority && Held(View(b), i, item) && Least(View(b), item)
               && View(after) == EagerStore(View(b), key, View(b)[i].slots.Drop(item.action))
    ensures EagerPollStep(View(b), now, p, View(after))
  {
    hide Held, Least, EagerStore;
    if p.Expired? {
      assert Expires(View(b), i, now, p.key, p.item, View(after));
    }
  }

  /** A poll of the agenda is a right poll of the effective instants. */
  lemma PollExplained(b: Book, capacity: nat, now: int, p: Poll, after: Book)
    requires Consistent(b, capacity) && PollStep(b, now, p, after)
    ensures Consistent(after, capacity) && EagerPollStep(View(b), now, p, View(after))
  {
    if NoneDue(b, now) {
      NothingDue(b, capacity, now);
    } else {
      hide EagerPollStep, PollAt;
      var i :| IsFirst(b, i) && b[i].priority.at <= now && (after, p) == PollAt(b, i);
      PollRefines(b, capacity, i);
      ExpiryExplained(b, i, now, p, after);
    }
  }

  lemma StepExplained(b: Book, capacity: nat, c: Clock, clock: int, op: RunOp, r: Report, after: Book)
    requires c.Monotone() && Consistent(b, capacity) && AllRecent(b, c, clock) && OpOnTime(op, c, clock)
    requires LazyStep(b, capacity, c, op, r, after)
    ensures Consistent(after, capacity) && AllRecent(after, c, ClockAfter(op, clock))
    ensures EagerStep(View(b), capacity, c, op, r, View(after))
  {
    match op {
      case Do(op) =>
        PerformOnTime(b, capacity, c, clock, op);
        PerformRefinesExactly(b, capacity, c, op);
      case Visit(now) =>
        PollExplained(b, capacity, now, r.poll, after);
        PollRecent(b, c, clock, now, r.poll, after);
    }
  }

  /** Polling retains no new progress. */
  lemma PollRecent(b: Book, c: Clock, clock: int, now: int, p: Poll, after: Book)
    requires AllRecent(b, c, clock) && PollStep(b, now, p, after)
    ensures AllRecent(after, c, clock)
  {
  }

  /**
   Along every run on time, whichever first resident the heap picks, the agenda
   reports what a book of effective instants may report: an expiry is least and
   due among all of them, and idle means that none is due.
   */
  lemma {:induction false} RunRefines(b: Book, capacity: nat, c: Clock, clock: int, ops: seq<RunOp>,
                                      reports: seq<Report>, end: Book)
    requires c.Monotone() && Consistent(b, capacity) && AllRecent(b, c, clock) && OnTime(ops, c, clock)
    requires Executes(b, capacity, c, ops, reports, end)
    ensures Consistent(end, capacity) && Explains(View(b), capacity, c, ops, reports, View(end))
    decreases ops
  {
    if ops != [] {
      var mid :| LazyStep(b, capacity, c, ops[0], reports[0], mid)
                 && Executes(mid, capacity, c, ops[1..], reports[1..], end);
      StepExplained(b, capacity, c, clock, ops[0], reports[0], mid);
      RunRefines(mid, capacity, c, ClockAfter(ops[0], clock), ops[1..], reports[1..], end);
    }
  }

  /** In particular from the empty agenda, which needs no assumption on its state. */
  lemma RunsFromEmpty(capacity: nat, c: Clock, clock: int, ops: seq<RunOp>, reports: seq<Report>, end: Book)
    requires c.Monotone() && OnTime(ops, c, clock) && Executes(map[], capacity, c, ops, reports, end)
    ensures Consistent(end, capacity) && Explains(map[], capacity, c, ops, reports, View(end))
  {
    RunRefines(map[], capacity, c, clock, ops, reports, end);
    assert View(map[]) == map[];
  }

  ghost predicate Keyed(e: EagerBook) {
    forall i :: i in e ==> e[i].key.index == i
  }

  /** Without operations in between, what expires later was held before. */
  lemma {:induction false} LaterIsHeld(e: EagerBook, capacity: nat, c: Clock, ops: seq<RunOp>, reports: seq<Report>,
                                       end: EagerBook, j: nat)
    returns (i: nat)
    requires Keyed(e) && Explains(e, capacity, c, ops, reports, end) && forall op :: op in ops ==> op.Visit?
    requires j < |ops| == |reports| && reports[j].Polled? && reports[j].poll.Expired?
    ensures Held(e, i, reports[j].poll.item)
    decreases ops
  {
    var mid :| EagerStep(e, capacity, c, ops[0], reports[0], mid)
               && Explains(mid, capacity, c, ops[1..], reports[1..], end);
    assert ops[0] in ops && forall op :: op in ops[1..] ==> op in ops;
    if j == 0 {
      i :| Expires(e, i, ops[0].now, reports[0].poll.key, reports[0].poll.item, mid);
    } else {
      i := LaterIsHeld(mid, capacity, c, ops[1..], reports[1..], end, j - 1);
    }
  }

  /** Consecutive expiries never go back, whatever the instants they are polled at. */
  lemma {:induction false} ExpiriesAscend(e: EagerBook, capacity: nat, c: Clock, ops: seq<RunOp>, reports: seq<Report>,
                                          end: EagerBook, i: nat, j: nat)
    requires Keyed(e) && Explains(e, capacity, c, ops, reports, end) && forall op :: op in ops ==> op.Visit?
    requires i < j < |ops| == |reports|
    requires reports[i].Polled? && reports[i].poll.Expired? && reports[j].Polled? && reports[j].poll.Expired?
    ensures NotAfter(reports[i].poll.item, reports[j].poll.item)
    decreases ops
  {
    if i == 0 {
      var k := LaterIsHeld(e, capacity, c, ops, reports, end, j);
      var mid :| EagerStep(e, capacity, c, ops[0], reports[0], mid)
                 && Explains(mid, capacity, c, ops[1..], reports[1..], end);
      assert ops[0] in ops;
    } else {
      var mid :| EagerStep(e, capacity, c, ops[0], reports[0], mid)
                 && Explains(mid, capacity, c, ops[1..], reports[1..], end);
      assert ops[0] in ops && forall op :: op in ops[1..] ==> op in ops;
      ExpiriesAscend(mid, capacity, c, ops[1..], reports[1..], end, i - 1, j - 1);
    }
  }

  function Renewals(reports: seq<Report>): nat {
    if reports == [] then 0
    else (if reports[0] == Polled(Renewed) then 1 else 0) + Renewals(reports[1..])
  }

  lemma SmallerSet(a: set<nat>, b: set<nat>)
    requires a <= b
    ensures |a| <= |b| && (a != b ==> |a| < |b|)
  {
    assert b == a + (b - a);
  }

  lemma PollSpends(b: Book, capacity: nat, now: int, p: Poll, after: Book)
    requires Consistent(b, capacity) && PollStep(b, now, p, after)
    ensures Consistent(after, capacity)
    ensures |Unspent(after)| + (if p == Renewed then 1 else 0) <= |Unspent(b)|
  {
    if !NoneDue(b, now) {
      var i :| IsFirst(b, i) && b[i].priority.at <= now && (after, p) == PollAt(b, i);
      PollRefines(b, capacity, i);
      VisitSpends(b, capacity, i);
    }
    hide PollAt;
    SmallerSet(Unspent(after), Unspent(b));
  }

  lemma VisitSpends(b: Book, capacity: nat, i: nat)
    requires Consistent(b, capacity) && i in b
    ensures Unspent(PollAt(b, i).0) <= Unspent(b)
  {
    VisitRefines(b[i].lane, b[i].priority);
  }

  /** Polls renew at most once for each progress retained, so draining them ends. */
  lemma {:induction false} RenewalsEnd(b: Book, capacity: nat, c: Clock, ops: seq<RunOp>, reports: seq<Report>,
                                       end: Book)
    requires Consistent(b, capacity) && Executes(b, capacity, c, ops, reports, end)
    requires forall op :: op in ops ==> op.Visit?
    ensures Renewals(reports) + |Unspent(end)| <= |Unspent(b)|
    decreases ops
  {
    if ops != [] {
      var mid :| LazyStep(b, capacity, c, ops[0], reports[0], mid)
                 && Executes(mid, capacity, c, ops[1..], reports[1..], end);
      assert ops[0] in ops && forall op :: op in ops[1..] ==> op in ops;
      PollSpends(b, capacity, ops[0].now, reports[0].poll, mid);
      RenewalsEnd(mid, capacity, c, ops[1..], reports[1..], end);
    }
  }

  /** Scheduling the resident instant again, before the window's end, keeps later progress. */
  lemma RescheduleKeepsProgress()
    ensures var c := Clock(p => if p == BodyIdle then Some(5) else None, (n, w) => n + w);
            var key := Key(0, 0);
            var begun := Perform(map[], 1, c, Transit(key, HeadAdmitted, 0));
            var b := Perform(begun, 1, c, Transit(key, BodyProgress, 3));
            var again := Schedule(key, Scheduled(5, Expire(BodyIdle)));
            && KeepsProgress(b, 1, c, again)
            && View(Perform(b, 1, c, again)) != EagerPerform(View(b), 1, c, again)
  {
    var c := Clock(p => if p == BodyIdle then Some(5) else None, (n, w) => n + w);
    var key := Key(0, 0);
    var begun := Perform(map[], 1, c, Transit(key, HeadAdmitted, 0));
    assert begun == map[0 := Entry(key, Scheduled(5, Expire(BodyIdle)),
                                   Lane(Times(Lanes(None, Some(Expiry(5, BodyIdle)), None), None), None))];
    var b := Perform(begun, 1, c, Transit(key, BodyProgress, 3));
    assert b[0].lane.times == Times(Lanes(None, Some(Expiry(5, BodyIdle)), None), Some(8));
    assert Consistent(b, 1);
    PerformRefinesExactly(b, 1, c, Schedule(key, Scheduled(5, Expire(BodyIdle))));
  }

  // ------------------------------------------------------- one exchange

  /** Repeated visits of a single lane. */
  function PopLane(l: Lane, now: int): (Lane, Option<Scheduled>)
    requires l.times.Valid()
    decreases l.times.progress.Some?
  {
    if l.Next().None? || l.Next().value.at > now then (l, None)
    else
      var (after, renewed) := l.Visit(l.Next().value);
      VisitRefines(l, l.Next().value);
      if renewed then PopLane(after, now) else (after, l.Next())
  }

  /** Polling one exchange and popping its timeline expire the same entries. */
  lemma SameExpiries(t: Times, now: int)
    requires t.Valid()
    ensures var (lane, got) := PopLane(Lane(t, None), now);
            var (after, want) := t.PopDue(now);
            && got == FromExpiry(want)
            && lane.wake.None? && lane.times.Valid()
            && (lane.times.Effective() == after.Effective() <==> !Advances(t, now))
  {
    PopRefinesExactly(t, now);
    PopLaneIsEager(t, now);
  }

  /** Visits, unlike the timeline's own loop, never advance a deadline. */
  lemma PopLaneIsEager(t: Times, now: int)
    requires t.Valid()
    ensures var (lane, got) := PopLane(Lane(t, None), now);
            var (eager, want) := EagerPop(t.Effective(), now);
            got == FromExpiry(want) && lane.wake.None? && lane.times.Valid() && lane.times.Effective() == eager
    decreases t.progress.Some?
  {
    NextIsLeast(t.lanes);
    NextIsLeast(t.Effective());
    var l := Lane(t, None);
    if l.Next().Some? && l.Next().value.at <= now {
      var item := l.Next().value;
      VisitRefines(l, item);
      var (after, renewed) := l.Visit(item);
      if renewed {
        PopLaneIsEager(after.times, now);
      } else {
        NextPrecedes(l);
        var want := t.Effective().Next();
        assert l.View().Has(Scheduled(want.value.at, Expire(want.value.phase)));
      }
    }
  }

  /** What `pop_due` may return when every effective instant is known. */
  ghost predicate PopStep(e: EagerBook, now: int, r: Option<(Key, Scheduled)>, after: EagerBook) {
    match r
    case None => after == e && forall i, item :: Held(e, i, item) ==> item.at > now
    case Some((key, item)) => exists i :: Expires(e, i, now, key, item, after)
  }

  /** Successive calls of `pop_due`. */
  ghost predicate Pops(e: EagerBook, nows: seq<int>, got: seq<Option<(Key, Scheduled)>>)
    decreases nows
  {
    if nows == [] then got == []
    else got != [] && exists mid :: PopStep(e, nows[0], got[0], mid) && Pops(mid, nows[1..], got[1..])
  }

  /** Successive pops of one timeline, tagged with its exchange. */
  function TimelinePops(key: Key, t: Times, nows: seq<int>): seq<Option<(Key, Scheduled)>>
    decreases nows
  {
    if nows == [] then []
    else [Tagged(key, t.PopDue(nows[0]).1)] + TimelinePops(key, t.PopDue(nows[0]).0, nows[1..])
  }

  function Tagged(key: Key, item: Option<Expiry>): Option<(Key, Scheduled)> {
    if item.None? then None else Some((key, FromExpiry(item).value))
  }

  /** An eager book with one exchange, or none. */
  function Alone(key: Key, l: Lanes): EagerBook {
    EagerStore(map[], key, Slots(l, None))
  }

  /** With one exchange there is no choice: a pop is the eager pop of its lanes. */
  lemma AlonePops(key: Key, l: Lanes, now: int, r: Option<(Key, Scheduled)>, after: EagerBook)
    requires l.Placed() && PopStep(Alone(key, l), now, r, after)
    ensures EagerPop(l, now).0.Placed()
    ensures r == Tagged(key, EagerPop(l, now).1) && after == Alone(key, EagerPop(l, now).0)
  {
    NextIsLeast(l);
    var e := Alone(key, l);
    var first := l.Next();
    if first.Some? {
      assert Held(e, key.index, FromExpiry(first).value);
    }
    if r.Some? {
      var i :| Expires(e, i, now, r.value.0, r.value.1, after);
      var item := r.value.1;
      assert i == key.index && item.action.Expire?;
      assert l.Get(LaneOf(item.action.phase)) == Some(Expiry(item.at, item.action.phase));
    }
  }

  /** However often one exchange is popped, the agenda and its timeline expire the same
      sequence, provided no retained progress lies before the deadline it postpones. */
  lemma {:induction false} SameSequence(key: Key, t: Times, nows: seq<int>, got: seq<Option<(Key, Scheduled)>>)
    requires Ahead(t) && Pops(View(Store(map[], key, Lane(t, None))), nows, got)
    ensures got == TimelinePops(key, t, nows)
    decreases nows
  {
    var e := View(Store(map[], key, Lane(t, None)));
    assert View(map[]) == map[];
    StoreRefines(map[], key.index + 1, key, Lane(t, None));
    if nows != [] {
      var mid :| PopStep(e, nows[0], got[0], mid) && Pops(mid, nows[1..], got[1..]);
      AlonePops(key, t.Effective(), nows[0], got[0], mid);
      PopRefinesExactly(t, nows[0]);
      var after := t.PopDue(nows[0]).0;
      StoreRefines(map[], key.index + 1, key, Lane(after, None));
      SameSequence(key, after, nows[1..], got[1..]);
      assert got == [got[0]] + got[1..];
    }
  }

  // ------------------------------------------------------- the object

  /** The agenda over a stand-in heap that selects a least resident by scanning. */
  class Agenda {
    const capacity: nat
    var book: Book

    constructor (capacity: nat)
      ensures this.capacity == capacity && book == map[] && Consistent(book, capacity)
    {
      this.capacity, book := capacity, map[];
    }

    method FirstEntry() returns (i: Option<nat>)
      requires Consistent(book, capacity)
      ensures i.None? <==> book == map[]
      ensures i.Some? ==> IsFirst(book, i.value)
    {
      i := None;
      for k := 0 to capacity
        invariant i.None? ==> forall j :: j in book ==> j >= k
        invariant i.Some? ==> i.value in book && forall j :: j in book && j < k ==>
                    NotAfter(book[i.value].priority, book[j].priority)
      {
        if k in book && (i.None? || !NotAfter(book[i.value].priority, book[k].priority)) {
          i := Some(k);
        }
      }
      if i.None? {
        assert book == map[];
      }
    }

    /** Visits at most one due resident. */
    method PollDue(now: int) returns (p: Poll, ghost i: nat)
      requires Consistent(book, capacity)
      modifies this
      ensures Consistent(book, capacity)
      ensures PollStep(old(book), now, p, book)
      ensures p == Idle ==> book == old(book) && forall j, item :: Held(View(book), j, item) ==> item.at > now
      ensures p != Idle ==>
                IsFirst(old(book), i) && old(book)[i].priority.at <= now && (book, p) == PollAt(old(book), i)
    {
      i := 0;
      var first := FirstEntry();
      if first.None? || book[first.value].priority.at > now {
        NothingDue(book, capacity, now);
        return Idle, i;
      }
      i := first.value;
      PollRefines(book, capacity, first.value);
      var Entry(key, item, lane) := book[first.value];
      var (after, renewed) := lane.Visit(item);
      book := if after.Next().None? then book - {key.index}
              else book[key.index := Entry(key, after.Next().value, after)];
      p := if renewed then Renewed else Expired(key, item);
    }

    /**
     Returns an instant that is due and least among all effective ones, and
     nothing only when none is due; renewals on the way change no instant.
     */
    method PopDue(now: int) returns (r: Option<(Key, Scheduled)>, ghost i: nat)
      requires Consistent(book, capacity)
      modifies this
      ensures Consistent(book, capacity)
      ensures PopStep(View(old(book)), now, r, View(book))
      ensures r.None? ==> View(book) == View(old(book)) &&
                          forall j, item :: Held(View(old(book)), j, item) ==> item.at > now
      ensures r.Some? ==>
                var (key, item) := r.value;
                && Held(View(old(book)), i, item) && View(old(book))[i].key == key && item.at <= now
                && Least(View(old(book)), item)
                && View(book) == EagerPopped(View(old(book)), i, item)
    {
      while true
        invariant Consistent(book, capacity) && View(book) == View(old(book))
        decreases Unspent(book)
      {
        ghost var before := book;
        var p;
        p, i := PollDue(now);
        match p {
          case Idle => return None, i;
          case Renewed => PollRefines(before, capacity, i);
          case Expired(key, item) =>
            PollRefines(before, capacity, i);
            assert Expires(View(before), i, now, key, item, View(book));
            return Some((key, item)), i;
        }
      }
    }

    method TryEntry(key: Key) returns (r: Option<Error>)
      ensures r == Refusal(Occupant(book, key.index), key, capacity)
    {
      if key.index >= capacity {
        return Some(OutOfRange(key, capacity));
      }
      if key.index in book && book[key.index].key != key {
        return Some(Conflict(key, book[key.index].key));
      }
      return None;
    }

    method ScheduleItem(c: Clock, key: Key, item: Scheduled) returns (r: Result<(), Error>)
      requires Consistent(book, capacity)
      modifies this
      ensures book == Perform(old(book), capacity, c, Schedule(key, item)) && Consistent(book, capacity)
      ensures r == match Refusal(Occupant(old(book), key.index), key, capacity)
                   case Some(e) => Failure(e)
                   case None => Success(())
    {
      PerformRefinesExactly(book, capacity, c, Schedule(key, item));
      var refused := TryEntry(key);
      if refused.Some? {
        return Failure(refused.value);
      }
      var lane := EmptyLane;
      if key.index in book {
        lane := book[key.index].lane;
        if lane.Resident(item.action) == Some(item) {
          return Success(());
        }
      }
      lane := lane.Set(item);
      NextPrecedes(lane);
      book := book[key.index := Entry(key, lane.Next().value, lane)];
      return Success(());
    }

    /** The least priority, which is what the external timer is armed with. */
    method Peek() returns (p: Option<Scheduled>)
      requires Consistent(book, capacity)
      ensures Shows(book, p)
    {
      var first := FirstEntry();
      if first.None? {
        return None;
      }
      FirstShows(book, first.value);
      return Some(book[first.value].priority);
    }

    method Cancel(c: Clock, key: Key) returns (m: Mutation, ghost least: Option<Scheduled>)
      requires Consistent(book, capacity)
      modifies this
      ensures Consistent(book, capacity)
      ensures book == Perform(old(book), capacity, c, Op.Cancel(key))
      ensures m == Contents ==> Shows(old(book), least) && Shows(book, least)
      ensures m == Unchanged <==> book == old(book)
    {
      PerformRefinesExactly(book, capacity, c, Op.Cancel(key));
      if key.index !in book || book[key.index].key != key {
        return Unchanged, None;
      }
      var before := Peek();
      book := book - {key.index};
      var after := Peek();
      m, least := Between(before, after), before;
    }

    method CancelOne(c: Clock, key: Key, action: Action)
      returns (m: Mutation, ghost least: Option<Scheduled>)
      requires Consistent(book, capacity)
      modifies this
      ensures Consistent(book, capacity)
      ensures book == Perform(old(book), capacity, c, Op.CancelOne(key, action))
      ensures m == Unchanged ==> book == old(book)
      ensures m == Contents ==> Shows(old(book), least) && Shows(book, least)
    {
      PerformRefinesExactly(book, capacity, c, Op.CancelOne(key, action));
      if key.index !in book || book[key.index].key != key {
        return Unchanged, None;
      }
      var lane := book[key.index].lane;
      if lane.Resident(action).None? || lane.Resident(action).value.action != action {
        return Unchanged, None;
      }
      var before := Peek();
      lane := lane.Retire(action);
      book := if lane.Next().None? then book - {key.index} else book[key.index := Entry(key, lane.Next().value, lane)];
      var after := Peek();
      m, least := Between(before, after), before;
    }

    /** The heap key is touched only when the lane's minimum moved. */
    method Transition(c: Clock, key: Key, change: DeadlineTimeline.Transition, now: int) returns (r: Result<(), Error>)
      requires Consistent(book, capacity)
      modifies this
      ensures Consistent(book, capacity)
      ensures book == Perform(old(book), capacity, c, Transit(key, change, now))
      ensures r == match Refusal(Occupant(old(book), key.index), key, capacity)
                   case Some(e) => Failure(e)
                   case None => Success(())
    {
      PerformRefinesExactly(book, capacity, c, Transit(key, change, now));
      var refused := TryEntry(key);
      if refused.Some? {
        return Failure(refused.value);
      }
      if key.index !in book {
        if change == BodyProgress {
          return Success(());
        }
        var lane := EmptyLane.Transition(c, change, now);
        if lane.Next().Some? {
          book := book[key.index := Entry(key, lane.Next().value, lane)];
        }
        return Success(());
      }
      var entry := book[key.index];
      var lane := entry.lane.Transition(c, change, now);
      if lane.Next() == entry.lane.Next() {
        book := book[key.index := entry.(lane := lane)];
      } else if lane.Next().Some? {
        book := book[key.index := Entry(key, lane.Next().value, lane)];
      } else {
        book := book - {key.index};
      }
      return Success(());
    }
  }

  /** `p` is the least priority of the book, if it has one. */
  ghost predicate Shows(b: Book, p: Option<Scheduled>) {
    match p
    case None => b == map[]
    case Some(item) => b != map[] && forall i :: IsFirst(b, i) ==> b[i].priority == item
  }

  lemma FirstShows(b: Book, i: nat)
    requires IsFirst(b, i)
    ensures Shows(b, Some(b[i].priority))
  {
    forall j | IsFirst(b, j) ensures b[j].priority == b[i].priority {
      assert NotAfter(b[i].priority, b[j].priority) && NotAfter(b[j].priority, b[i].priority);
    }
  }
}
