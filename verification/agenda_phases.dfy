/**
 The agenda told phase by phase: for every exchange five independent instants and
 a wake, without lanes, ranks, heap keys or stale entries.
 */
module AgendaPhases {
  import opened Common
  import opened DeadlineAgenda
  import opened DeadlinePhases
  import Line = DeadlineTimeline

  datatype Plan = Plan(key: Key, dues: Dues, wake: Option<WakeAt>)

  type Plans = map<nat, Plan>

  /** When an action of this exchange is due, if it is. */
  function Due(p: Plan, a: Action): Option<int> {
    match a
    case Expire(phase) => When(p.dues, phase)
    case Wake(reason) => if p.wake.Some? && p.wake.value.reason == reason then Some(p.wake.value.at) else None
  }

  /** Earlier instants first; at one instant every expiry before every wake. */
  ghost predicate NoLater(a: Scheduled, b: Scheduled) {
    || a.at < b.at
    || (a.at == b.at &&
        match (a.action, b.action)
        case (Expire(p), Expire(q)) => Before(p, q)
        case (Expire(_), Wake(_)) => true
        case (Wake(_), Expire(_)) => false
        case (Wake(x), Wake(y)) => x <= y)
  }

  // ------------------------------------------------------- the reference

  function Keep(ps: Plans, key: Key, dues: Dues, wake: Option<WakeAt>): Plans {
    if dues == NoDues && wake.None? then ps - {key.index} else ps[key.index := Plan(key, dues, wake)]
  }

  function At(ps: Plans, i: nat): (Dues, Option<WakeAt>) {
    if i in ps then (ps[i].dues, ps[i].wake) else (NoDues, None)
  }

  /** A key out of range, or of an exchange whose slot another one holds, changes nothing. */
  function Planned(ps: Plans, capacity: nat, c: Line.Clock, op: Op): Plans {
    var key := op.key;
    if key.index >= capacity || (key.index in ps && ps[key.index].key != key) then ps
    else
      var (dues, wake) := At(ps, key.index);
      match op
      case Schedule(_, Scheduled(at, Expire(phase))) => Keep(ps, key, With(dues, phase, at), wake)
      case Schedule(_, Scheduled(at, Wake(reason))) => Keep(ps, key, dues, Some(WakeAt(at, reason)))
      case Cancel(_) => ps - {key.index}
      case CancelOne(_, Expire(phase)) => Keep(ps, key, Without(dues, phase), wake)
      case CancelOne(_, Wake(reason)) =>
        Keep(ps, key, dues, if wake.Some? && wake.value.reason == reason then None else wake)
      case Transit(_, change, now) =>
        Keep(ps, key, After(dues, c, change, now), if change == Line.Retired then None else wake)
  }

  /** `item` of exchange `i` is due, nothing anywhere is due before it, and it alone leaves. */
  ghost predicate Goes(ps: Plans, i: nat, now: int, key: Key, item: Scheduled, after: Plans) {
    && i in ps && ps[i].key == key && Due(ps[i], item.action) == Some(item.at) && item.at <= now
    && (forall j, a :: j in ps && Due(ps[j], a).Some? ==> NoLater(item, Scheduled(Due(ps[j], a).value, a)))
    && after == match item.action
                case Expire(phase) => Keep(ps, key, Without(ps[i].dues, phase), ps[i].wake)
                case Wake(_) => Keep(ps, key, ps[i].dues, None)
  }

  ghost predicate NothingBy(ps: Plans, now: int) {
    forall j, a :: j in ps && Due(ps[j], a).Some? ==> Due(ps[j], a).value > now
  }

  ghost predicate PlanStep(ps: Plans, capacity: nat, c: Line.Clock, op: RunOp, r: Report, after: Plans) {
    match op
    case Do(op) => r == Performed && after == Planned(ps, capacity, c, op)
    case Visit(now) =>
      && r.Polled?
      && match r.poll
         case Idle => after == ps && NothingBy(ps, now)
         case Renewed => after == ps
         case Expired(key, item) => exists i :: Goes(ps, i, now, key, item, after)
  }

  /** The reports are right for plans that always hold every instant. */
  ghost predicate Right(ps: Plans, capacity: nat, c: Line.Clock, ops: seq<RunOp>, reports: seq<Report>, end: Plans)
    decreases ops
  {
    if ops == [] then reports == [] && end == ps
    else
      && reports != []
      && exists mid :: PlanStep(ps, capacity, c, ops[0], reports[0], mid)
                       && Right(mid, capacity, c, ops[1..], reports[1..], end)
  }

  // ------------------------------------------------------- read off the agenda

  function PlansOf(b: Book): Plans {
    map i | i in b :: Plan(b[i].key, DuesOf(b[i].lane.times), b[i].lane.wake)
  }

  function FromSlots(e: EagerBook): Plans {
    map i | i in e :: Plan(e[i].key, InLanes(e[i].slots.lanes), e[i].slots.wake)
  }

  ghost predicate AllPlaced(e: EagerBook) {
    forall i :: i in e ==> e[i].slots.lanes.Placed() && e[i].key.index == i && e[i].slots != NoSlots
  }

  lemma LaneIsPlan(l: Lane)
    requires l.times.Valid() && l.Next().Some?
    ensures var slots := l.View();
            slots.lanes.Placed() && slots != NoSlots && InLanes(slots.lanes) == DuesOf(l.times) && slots.wake == l.wake
  {
    DuesAreEffective(l.times);
    NextPrecedes(l);
  }

  lemma ViewIsPlans(b: Book, capacity: nat)
    requires Consistent(b, capacity)
    ensures FromSlots(View(b)) == PlansOf(b) && AllPlaced(View(b))
  {
    forall i | i in b
      ensures var slots := b[i].lane.View();
              slots.lanes.Placed() && slots != NoSlots && InLanes(slots.lanes) == DuesOf(b[i].lane.times)
              && slots.wake == b[i].lane.wake
    {
      LaneIsPlan(b[i].lane);
    }
    hide InLanes, DuesOf;
  }

  lemma StoreKeeps(e: EagerBook, key: Key, slots: Slots)
    requires AllPlaced(e) && slots.lanes.Placed()
    ensures AllPlaced(EagerStore(e, key, slots))
    ensures FromSlots(EagerStore(e, key, slots)) == Keep(FromSlots(e), key, InLanes(slots.lanes), slots.wake)
  {
    LanesFromDues(slots.lanes, Line.NoLanes);
  }

  /** What setting or clearing one lane does to every phase. */
  lemma SlotsChange(s: Slots, item: Scheduled, a: Action)
    requires s.lanes.Placed()
    ensures var put := s.Put(item);
            && put.lanes.Placed()
            && match item.action
               case Expire(phase) => InLanes(put.lanes) == With(InLanes(s.lanes), phase, item.at) && put.wake == s.wake
               case Wake(reason) => put.lanes == s.lanes && put.wake == Some(WakeAt(item.at, reason))
    ensures var left := s.Drop(a);
            && left.lanes.Placed()
            && match a
               case Expire(phase) =>
                 (s.Holds(a) ==> InLanes(left.lanes) == Without(InLanes(s.lanes), phase)) && left.wake == s.wake
                 && (!s.Holds(a) ==> InLanes(s.lanes) == Without(InLanes(s.lanes), phase))
               case Wake(_) => left.lanes == s.lanes && left.wake.None?
  {
  }

  /** Keeping what is there changes nothing. */
  lemma KeptAsIs(e: EagerBook, i: nat)
    requires AllPlaced(e) && i in e
    ensures Keep(FromSlots(e), e[i].key, InLanes(e[i].slots.lanes), e[i].slots.wake) == FromSlots(e)
  {
    StoreKeeps(e, e[i].key, e[i].slots);
    hide InLanes;
    assert EagerStore(e, e[i].key, e[i].slots) == e;
  }

  lemma NothingInLanes()
    ensures InLanes(Line.NoLanes) == NoDues
  {
  }

  lemma PerformIsPlanned(e: EagerBook, capacity: nat, c: Line.Clock, op: Op)
    requires AllPlaced(e)
    ensures AllPlaced(EagerPerform(e, capacity, c, op))
    ensures FromSlots(EagerPerform(e, capacity, c, op)) == Planned(FromSlots(e), capacity, c, op)
  {
    hide InLanes, With, Without, After, Line.EagerApply, EagerStore;
    var slots := SlotsAt(e, op.key.index);
    NothingInLanes();
    match op {
      case Schedule(key, item) =>
        SlotsChange(slots, item, item.action);
        StoreKeeps(e, key, slots.Put(item));
      case CancelOne(key, action) =>
        SlotsChange(slots, Scheduled(0, action), action);
        StoreKeeps(e, key, slots.Drop(action));
        if key.index in e {
          KeptAsIs(e, key.index);
        }
      case Transit(key, change, now) =>
        EagerIsAfter(slots.lanes, c, change, now);
        StoreKeeps(e, key, Slots(Line.EagerApply(slots.lanes, c, change, now),
                                 if change == Line.Retired then None else slots.wake));
      case Cancel(_) =>
    }
  }

  lemma DueIsHad(s: Slots, item: Scheduled)
    requires s.lanes.Placed()
    ensures s.Has(item) <==>
            match item.action
            case Expire(p) => When(InLanes(s.lanes), p) == Some(item.at)
            case Wake(reason) => s.wake.Some? && s.wake.value.reason == reason && s.wake.value.at == item.at
  {
  }

  lemma OrderIsNotAfter(a: Scheduled, b: Scheduled)
    ensures NoLater(a, b) <==> NotAfter(a, b)
  {
    if a.action.Expire? && b.action.Expire? {
      TiesAreRanked(a.action.phase, b.action.phase);
    }
  }

  lemma DueIsHeld(e: EagerBook, i: nat, item: Scheduled)
    requires AllPlaced(e)
    ensures Held(e, i, item) <==> i in e && Due(FromSlots(e)[i], item.action) == Some(item.at)
  {
    if i in e {
      DueIsHad(e[i].slots, item);
    }
  }

  lemma NothingHeld(e: EagerBook, now: int)
    requires AllPlaced(e) && forall i, item :: Held(e, i, item) ==> item.at > now
    ensures NothingBy(FromSlots(e), now)
  {
    var ps := FromSlots(e);
    forall j, a | j in ps && Due(ps[j], a).Some? ensures Due(ps[j], a).value > now {
      var item := Scheduled(Due(ps[j], a).value, a);
      DueIsHeld(e, j, item);
      assert Held(e, j, item);
    }
  }

  lemma ExpiryGoes(e: EagerBook, i: nat, now: int, key: Key, item: Scheduled, after: EagerBook)
    requires AllPlaced(e) && Expires(e, i, now, key, item, after)
    ensures AllPlaced(after) && Goes(FromSlots(e), i, now, key, item, FromSlots(after))
  {
    var ps := FromSlots(e);
    forall j, a | j in ps && Due(ps[j], a).Some? ensures NoLater(item, Scheduled(Due(ps[j], a).value, a)) {
      var other := Scheduled(Due(ps[j], a).value, a);
      DueIsHeld(e, j, other);
      assert Held(e, j, other);
      OrderIsNotAfter(item, other);
    }
    DueIsHeld(e, i, item);
    SlotsChange(e[i].slots, item, item.action);
    StoreKeeps(e, key, e[i].slots.Drop(item.action));
  }

  lemma StepPlanned(e: EagerBook, capacity: nat, c: Line.Clock, op: RunOp, r: Report, after: EagerBook)
    requires AllPlaced(e) && EagerStep(e, capacity, c, op, r, after)
    ensures AllPlaced(after) && PlanStep(FromSlots(e), capacity, c, op, r, FromSlots(after))
  {
    match op {
      case Do(op) => PerformIsPlanned(e, capacity, c, op);
      case Visit(now) =>
        match r.poll {
          case Idle => NothingHeld(e, now);
          case Renewed =>
          case Expired(key, item) =>
            var i :| Expires(e, i, now, key, item, after);
            ExpiryGoes(e, i, now, key, item, after);
        }
    }
  }

  lemma {:induction false} ExplainedIsRight(e: EagerBook, capacity: nat, c: Line.Clock, ops: seq<RunOp>,
                                            reports: seq<Report>, end: EagerBook)
    requires AllPlaced(e) && Explains(e, capacity, c, ops, reports, end)
    ensures Right(FromSlots(e), capacity, c, ops, reports, FromSlots(end))
    decreases ops
  {
    if ops != [] {
      var mid :| EagerStep(e, capacity, c, ops[0], reports[0], mid)
                 && Explains(mid, capacity, c, ops[1..], reports[1..], end);
      StepPlanned(e, capacity, c, ops[0], reports[0], mid);
      ExplainedIsRight(mid, capacity, c, ops[1..], reports[1..], end);
    }
  }

  /**
   Over every run on time of a new agenda, whichever first resident the heap picks: each
   operation has the planned effect on every phase and wake of its own exchange, an expiry
   is due and foremost among all exchanges, and idle means that nothing is due.
   */
  lemma RunsAreRight(capacity: nat, c: Line.Clock, clock: int, ops: seq<RunOp>, reports: seq<Report>, end: Book)
    requires c.Monotone() && OnTime(ops, c, clock) && Executes(map[], capacity, c, ops, reports, end)
    ensures Right(map[], capacity, c, ops, reports, PlansOf(end))
  {
    RunsFromEmpty(capacity, c, clock, ops, reports, end);
    ExplainedIsRight(map[], capacity, c, ops, reports, View(end));
    ViewIsPlans(end, capacity);
    assert FromSlots(map[]) == map[];
  }

  lemma PlansDetermine(e: EagerBook, f: EagerBook)
    requires AllPlaced(e) && AllPlaced(f) && FromSlots(e) == FromSlots(f)
    ensures e == f
  {
    assert e.Keys == FromSlots(e).Keys && f.Keys == FromSlots(f).Keys;
    forall i | i in e ensures e[i] == f[i] {
      assert FromSlots(e)[i] == FromSlots(f)[i];
      LanesFromDues(e[i].slots.lanes, f[i].slots.lanes);
    }
  }

  /** One operation, at any instant, has the planned effect exactly unless it installs the very
      body-idle instant that is resident under later progress. */
  lemma OperationsAreExact(b: Book, capacity: nat, c: Line.Clock, op: Op)
    requires Consistent(b, capacity)
    ensures PlansOf(Perform(b, capacity, c, op)) == Planned(PlansOf(b), capacity, c, op)
       <==> !KeepsProgress(b, capacity, c, op)
  {
    PerformRefinesExactly(b, capacity, c, op);
    ViewIsPlans(b, capacity);
    ViewIsPlans(Perform(b, capacity, c, op), capacity);
    PerformIsPlanned(View(b), capacity, c, op);
    if PlansOf(Perform(b, capacity, c, op)) == Planned(PlansOf(b), capacity, c, op) {
      PlansDetermine(View(Perform(b, capacity, c, op)), EagerPerform(View(b), capacity, c, op));
    }
  }

  /** A key is refused exactly when it lies outside the agenda or another key holds its slot. */
  lemma RefusalsAreExact(b: Book, key: Key, capacity: nat)
    ensures var why := Refusal(Occupant(b, key.index), key, capacity);
            && (why == Some(OutOfRange(key, capacity)) <==> key.index >= capacity)
            && (forall other :: why == Some(Conflict(key, other)) <==>
                  key.index < capacity && key.index in b && b[key.index].key == other && other != key)
            && (why.None? <==> key.index < capacity && (key.index in b ==> b[key.index].key == key))
  {
  }
}
