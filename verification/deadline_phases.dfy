/**
 Deadlines told phase by phase: five independent instants, what each transition
 makes of them, and the order in which they expire. Written down without lanes,
 ranks or stale entries, and shown to be what the timeline and the agenda keep.
 */
module DeadlinePhases {
  import opened Common
  import opened DeadlineTimeline

  /** When each phase is due, if it is. */
  datatype Dues = Dues(total: Option<int>, head: Option<int>, body: Option<int>,
                       handler: Option<int>, admission: Option<int>)

  const NoDues := Dues(None, None, None, None, None)

  function When(d: Dues, p: Phase): Option<int> {
    match p
    case Total => d.total
    case Head => d.head
    case BodyIdle => d.body
    case Handler => d.handler
    case ResponseAdmission => d.admission
  }

  /** Which phase expires first at one instant. */
  const TieOrder: seq<Phase> := [Total, Head, BodyIdle, Handler, ResponseAdmission]

  ghost predicate Before(p: Phase, q: Phase) {
    exists i, j :: 0 <= i <= j < 5 && TieOrder[i] == p && TieOrder[j] == q
  }

  // ------------------------------------------------------- the reference

  function Start(c: Clock, p: Phase, now: int): Option<int> {
    match c.window(p)
    case None => None
    case Some(w) => Some(c.add(now, w))
  }

  function Or(a: Option<int>, b: Option<int>): Option<int> {
    if a.Some? then a else b
  }

  function Later(a: Option<int>, b: Option<int>): Option<int> {
    if a.Some? && b.Some? && b.value > a.value then b else a
  }

  /** A disabled window leaves things as they are; head and body exclude one another,
      and so do handler and response admission. */
  function After(d: Dues, c: Clock, step: Transition, now: int): Dues {
    var start := p => Start(c, p, now);
    match step
    case Open => d.(total := Or(d.total, start(Total)))
    case AwaitingHead =>
      d.(total := Or(start(Total), d.total), head := Or(start(Head), d.head),
         body := if start(Head).Some? then None else d.body)
    case HeadAdmitted => d.(head := None, body := Or(start(BodyIdle), d.body))
    case InputAdmitted => d.(head := None)
    case BodyProgress => d.(body := Later(d.body, start(BodyIdle)))
    case InputFinished => d.(body := None)
    case HandlerStarted =>
      d.(handler := Or(start(Handler), d.handler), admission := if start(Handler).Some? then None else d.admission)
    case ResponseReady => d.(handler := None, admission := Or(start(ResponseAdmission), d.admission))
    case ResponseCommitted => d.(handler := None, admission := None)
    case Retired => NoDues
  }

  function Without(d: Dues, p: Phase): Dues {
    match p
    case Total => d.(total := None)
    case Head => d.(head := None)
    case BodyIdle => d.(body := None)
    case Handler => d.(handler := None)
    case ResponseAdmission => d.(admission := None)
  }

  /** Scheduling a phase takes the place of its rival. */
  function With(d: Dues, p: Phase, at: int): Dues {
    match p
    case Total => d.(total := Some(at))
    case Head => d.(head := Some(at), body := None)
    case BodyIdle => d.(head := None, body := Some(at))
    case Handler => d.(handler := Some(at), admission := None)
    case ResponseAdmission => d.(handler := None, admission := Some(at))
  }

  /** `item` is due, and nothing is due before it. */
  ghost predicate Foremost(d: Dues, item: Expiry) {
    && When(d, item.phase) == Some(item.at)
    && forall p :: When(d, p).Some? ==>
         item.at < When(d, p).value || (item.at == When(d, p).value && Before(item.phase, p))
  }

  /** What a pop may return. */
  ghost predicate Pops(d: Dues, now: int, got: Option<Expiry>) {
    match got
    case None => forall p :: When(d, p).Some? ==> When(d, p).value > now
    case Some(item) => item.at <= now && Foremost(d, item)
  }

  function Popped(d: Dues, got: Option<Expiry>): Dues {
    if got.Some? then Without(d, got.value.phase) else d
  }

  /** The results of all pops are right, and `end` is what remains. */
  ghost predicate Right(d: Dues, c: Clock, ops: seq<Op>, results: seq<Option<Expiry>>, end: Dues)
    decreases ops
  {
    if ops == [] then results == [] && end == d
    else
      match ops[0]
      case Step(change, now) => Right(After(d, c, change, now), c, ops[1..], results, end)
      case Pop(now) =>
        && results != [] && Pops(d, now, results[0])
        && Right(Popped(d, results[0]), c, ops[1..], results[1..], end)
  }

  // ------------------------------------------------------- read off a timeline

  /** The instant at which some lane holds phase `p`. */
  function Find(l: Lanes, p: Phase): Option<int> {
    if l.total.Some? && l.total.value.phase == p then Some(l.total.value.at)
    else if l.ingress.Some? && l.ingress.value.phase == p then Some(l.ingress.value.at)
    else if l.work.Some? && l.work.value.phase == p then Some(l.work.value.at)
    else None
  }

  function InLanes(l: Lanes): Dues {
    Dues(Find(l, Total), Find(l, Head), Find(l, BodyIdle), Find(l, Handler), Find(l, ResponseAdmission))
  }

  /** A body-idle entry counts from the latest progress. */
  function DuesOf(t: Times): Dues {
    var d := InLanes(t.lanes);
    d.(body := Later(d.body, t.progress))
  }

  lemma DuesAreEffective(t: Times)
    requires t.Valid()
    ensures InLanes(t.Effective()) == DuesOf(t)
  {
  }

  lemma LanesFromDues(l: Lanes, m: Lanes)
    requires l.Placed() && m.Placed()
    ensures l == m <==> InLanes(l) == InLanes(m)
  {
  }

  lemma EagerSets(l: Lanes, at: Option<int>, p: Phase)
    requires l.Placed()
    ensures EagerSet(l, at, p).Placed()
    ensures InLanes(EagerSet(l, at, p)) == if at.Some? then With(InLanes(l), p, at.value) else InLanes(l)
  {
  }

  lemma EagerRemoves(l: Lanes, p: Phase)
    requires l.Placed()
    ensures EagerRemove(l, p).Placed()
    ensures InLanes(EagerRemove(l, p)) == Without(InLanes(l), p)
  {
  }

  lemma EagerIsAfter(l: Lanes, c: Clock, step: Transition, now: int)
    requires l.Placed()
    ensures EagerApply(l, c, step, now).Placed()
    ensures InLanes(EagerApply(l, c, step, now)) == After(InLanes(l), c, step, now)
  {
    match step {
      case Open => EagerSets(l, c.Instant(Total, now), Total);
      case AwaitingHead =>
        EagerSets(l, c.Instant(Total, now), Total);
        EagerSets(EagerSet(l, c.Instant(Total, now), Total), c.Instant(Head, now), Head);
        hide EagerSet, InLanes;
      case HeadAdmitted =>
        EagerRemoves(l, Head);
        EagerSets(EagerRemove(l, Head), c.Instant(BodyIdle, now), BodyIdle);
        hide EagerSet, EagerRemove, InLanes;
      case ResponseReady =>
        EagerRemoves(l, Handler);
        EagerSets(EagerRemove(l, Handler), c.Instant(ResponseAdmission, now), ResponseAdmission);
        hide EagerSet, EagerRemove, InLanes;
      case ResponseCommitted =>
        EagerRemoves(l, Handler);
        EagerRemoves(EagerRemove(l, Handler), ResponseAdmission);
        hide EagerRemove, InLanes;
      case InputAdmitted => EagerRemoves(l, Head);
      case InputFinished => EagerRemoves(l, BodyIdle);
      case HandlerStarted => EagerSets(l, c.Instant(Handler, now), Handler);
      case BodyProgress =>
      case Retired =>
    }
  }

  /**
   Every transition has the stated effect on every phase, unless it installs the very
   body-idle instant that is resident under later progress, which then stays.
   */
  lemma TransitionsAreExact(t: Times, c: Clock, step: Transition, now: int)
    requires t.Valid()
    ensures var stale := Find(t.lanes, BodyIdle);
            var keeps := step == HeadAdmitted && stale.Some? && stale == Start(c, BodyIdle, now)
                         && t.progress.Some? && t.progress.value > stale.value;
            && (DuesOf(t.Apply(c, step, now)) == After(DuesOf(t), c, step, now) <==> !keeps)
            && (keeps ==> DuesOf(t.Apply(c, step, now)) == DuesOf(t))
  {
    ApplyRefinesExactly(t, c, step, now);
    var after := t.Apply(c, step, now);
    DuesAreEffective(t);
    DuesAreEffective(after);
    EagerIsAfter(t.Effective(), c, step, now);
    LanesFromDues(after.Effective(), EagerApply(t.Effective(), c, step, now));
  }

  lemma TiesAreRanked(p: Phase, q: Phase)
    ensures Before(p, q) <==> Rank(p) <= Rank(q)
  {
    var place := (r: Phase) =>
      if r == Total then 0 else if r == Head then 1 else if r == BodyIdle then 2 else if r == Handler then 3 else 4;
    assert TieOrder[place(p)] == p && TieOrder[place(q)] == q;
    if Rank(p) <= Rank(q) {
      assert 0 <= place(p) <= place(q) < 5;
    }
  }

  /** Scanning the lanes finds the foremost phase. */
  lemma NextIsForemost(l: Lanes)
    requires l.Placed()
    ensures l.Next().None? <==> InLanes(l) == NoDues
    ensures l.Next().Some? ==> Foremost(InLanes(l), l.Next().value)
  {
    NextIsLeast(l);
    if l.Next().Some? {
      var item, d := l.Next().value, InLanes(l);
      forall p | When(d, p).Some?
        ensures item.at < When(d, p).value || (item.at == When(d, p).value && Before(item.phase, p))
      {
        TiesAreRanked(item.phase, p);
        assert l.Get(LaneOf(p)) == Some(Expiry(When(d, p).value, p));
      }
    }
  }

  /** A pop takes what is foremost, and nothing else changes unless a deadline was advanced. */
  lemma PopTakesForemost(t: Times, now: int)
    requires t.Valid()
    ensures var (after, got) := t.PopDue(now);
            && Pops(DuesOf(t), now, got)
            && (DuesOf(after) == Popped(DuesOf(t), got) <==> !Advances(t, now))
  {
    PopRefinesExactly(t, now);
    DuesAreEffective(t);
    var l := t.Effective();
    NextIsForemost(l);
    var (after, got) := t.PopDue(now);
    EagerPopTakes(l, now);
    DuesAreEffective(after);
    LanesFromDues(after.Effective(), EagerPop(l, now).0);
  }

  lemma EagerPopTakes(l: Lanes, now: int)
    requires l.Placed()
    ensures var (after, got) := EagerPop(l, now);
            && after.Placed() && InLanes(after) == Popped(InLanes(l), got)
            && Pops(InLanes(l), now, got)
  {
    NextIsForemost(l);
  }

  /**
   Over any run with a clock that does not run backwards the timeline expires what
   the five instants say, in order, and ends as they do.
   */
  lemma {:induction false} RunIsRight(t: Times, c: Clock, ops: seq<Op>, clock: int)
    requires c.Monotone() && Bounded(t, c, clock) && InOrder(ops, clock)
    ensures var (end, results) := LazyRun(t, c, ops);
            Right(DuesOf(t), c, ops, results, DuesOf(end))
    decreases ops
  {
    if ops != [] {
      match ops[0] {
        case Step(change, now) =>
          ApplyRefines(t, c, change, clock, now);
          TransitionsAreExact(t, c, change, now);
          RunIsRight(t.Apply(c, change, now), c, ops[1..], now);
        case Pop(now) =>
          PopBounded(t, c, clock, now);
          PopRefinesExactly(t, now);
          PopTakesForemost(t, now);
          var (after, got) := t.PopDue(now);
          RunIsRight(after, c, ops[1..], clock);
          var results := LazyRun(t, c, ops).1;
          assert results[0] == got && results[1..] == LazyRun(after, c, ops[1..]).1;
      }
    }
  }

  /** In particular from the empty timeline. */
  lemma NewTimelineIsRight(c: Clock, ops: seq<Op>, clock: int)
    requires c.Monotone() && InOrder(ops, clock)
    ensures var (end, results) := LazyRun(Empty, c, ops);
            Right(NoDues, c, ops, results, DuesOf(end))
  {
    RunIsRight(Empty, c, ops, clock);
  }
}
