/**
 One exchange's deadlines. The lazy timeline keeps a body-idle deadline stale
 until it is visited; the eager one always holds the effective instants.
 */
module DeadlineTimeline {
  import opened Common

  datatype Phase = Head | BodyIdle | Total | Handler | ResponseAdmission

  /** Tie order among phases expiring at one instant. */
  function Rank(p: Phase): nat {
    match p
    case Total => 0
    case Head => 1
    case BodyIdle => 2
    case Handler => 4
    case ResponseAdmission => 5
  }

  function LaneOf(p: Phase): (l: nat)
    ensures l < 3
  {
    match p
    case Total => 0
    case Head => 1
    case BodyIdle => 1
    case Handler => 2
    case ResponseAdmission => 2
  }

  datatype Expiry = Expiry(at: int, phase: Phase)

  predicate AtMost(a: Expiry, b: Expiry) {
    a.at < b.at || (a.at == b.at && Rank(a.phase) <= Rank(b.phase))
  }

  function Earlier(a: Option<Expiry>, b: Option<Expiry>): Option<Expiry> {
    if a.None? then b else if b.None? || AtMost(a.value, b.value) then a else b
  }

  /** Three lanes: total, ingress, work. */
  datatype Lanes = Lanes(total: Option<Expiry>, ingress: Option<Expiry>, work: Option<Expiry>) {
    function Get(lane: nat): Option<Expiry>
      requires lane < 3
    {
      if lane == 0 then total else if lane == 1 then ingress else work
    }

    function Set(lane: nat, item: Option<Expiry>): (r: Lanes)
      requires lane < 3
      ensures forall l :: 0 <= l < 3 ==> r.Get(l) == if l == lane then item else Get(l)
    {
      if lane == 0 then this.(total := item)
      else if lane == 1 then this.(ingress := item)
      else this.(work := item)
    }

    predicate Placed() {
      && (total.Some? ==> total.value.phase == Total)
      && (ingress.Some? ==> LaneOf(ingress.value.phase) == 1)
      && (work.Some? ==> LaneOf(work.value.phase) == 2)
    }

    function Next(): Option<Expiry> {
      Earlier(Earlier(total, ingress), work)
    }
  }

  const NoLanes := Lanes(None, None, None)

  /** `Next` is the unique earliest entry. */
  lemma NextIsLeast(l: Lanes)
    requires l.Placed()
    ensures l.Next().None? <==> l == NoLanes
    ensures l.Next().Some? ==> l.Get(LaneOf(l.Next().value.phase)) == l.Next()
    ensures forall i :: 0 <= i < 3 && l.Get(i).Some? ==>
              l.Next().Some? && AtMost(l.Next().value, l.Get(i).value)
    ensures forall i :: 0 <= i < 3 && l.Get(i).Some? && l.Next().Some? && i != LaneOf(l.Next().value.phase) ==>
              !AtMost(l.Get(i).value, l.Next().value)
  {
  }

  // ------------------------------------------------------- configuration

  /** A window per phase, absent when disabled, and the clock addition. */
  datatype Clock = Clock(window: Phase -> Option<nat>, add: (int, nat) -> int) {
    function Instant(p: Phase, now: int): Option<int> {
      if window(p).None? then None else Some(add(now, window(p).value))
    }

    ghost predicate Monotone() {
      forall a, b, w :: a <= b ==> add(a, w) <= add(b, w)
    }
  }

  datatype Transition =
    | Open | AwaitingHead | HeadAdmitted | InputAdmitted | BodyProgress | InputFinished
    | HandlerStarted | ResponseReady | ResponseCommitted | Retired

  // ------------------------------------------------------- the lazy value

  /** Scheduled lanes and the latest body progress not yet applied to them. */
  datatype Times = Times(lanes: Lanes, progress: Option<int>) {
    predicate Valid() {
      lanes.Placed() && (progress.Some? ==> Holds(BodyIdle))
    }

    predicate Holds(p: Phase) {
      lanes.Get(LaneOf(p)).Some? && lanes.Get(LaneOf(p)).value.phase == p
    }

    function Set(at: int, p: Phase): Times {
      Times(lanes.Set(LaneOf(p), Some(Expiry(at, p))), if LaneOf(p) == LaneOf(BodyIdle) then None else progress)
    }

    /** Installs an instant unless that very entry is resident already. */
    function Insert(at: Option<int>, p: Phase): Times {
      if at.None? || lanes.Get(LaneOf(p)) == Some(Expiry(at.value, p)) then this else Set(at.value, p)
    }

    function ClearPhase(p: Phase): Times {
      Times(lanes.Set(LaneOf(p), None), if p == BodyIdle then None else progress)
    }

    function Remove(p: Phase): Times {
      if Holds(p) then ClearPhase(p) else this
    }

    function Progress(at: Option<int>): Times {
      if !Holds(BodyIdle) || at.None? || (progress.Some? && progress.value >= at.value) then this
      else this.(progress := at)
    }

    /** Spends the retained progress; it takes effect only beyond `current`. */
    function Refresh(current: int): (Times, bool) {
      if progress.None? then (this, false)
      else if progress.value <= current then (this.(progress := None), false)
      else (Times(lanes.Set(1, Some(Expiry(progress.value, BodyIdle))), None), true)
    }

    function Apply(c: Clock, step: Transition, now: int): Times {
      match step
      case Open => if Holds(Total) then this else Insert(c.Instant(Total, now), Total)
      case AwaitingHead => Insert(c.Instant(Total, now), Total).Insert(c.Instant(Head, now), Head)
      case HeadAdmitted => Remove(Head).Insert(c.Instant(BodyIdle, now), BodyIdle)
      case InputAdmitted => Remove(Head)
      case BodyProgress => Progress(c.Instant(BodyIdle, now))
      case InputFinished => Remove(BodyIdle)
      case HandlerStarted => Insert(c.Instant(Handler, now), Handler)
      case ResponseReady => Remove(Handler).Insert(c.Instant(ResponseAdmission, now), ResponseAdmission)
      case ResponseCommitted => Remove(Handler).Remove(ResponseAdmission)
      case Retired => Empty
    }

    /** Repeats visit and refresh until an entry is really due. */
    function PopDue(now: int): (Times, Option<Expiry>)
      decreases progress.Some?
    {
      if lanes.Next().None? || lanes.Next().value.at > now then (this, None)
      else
        var item := lanes.Next().value;
        var (refreshed, changed) := Refresh(item.at);
        if changed then refreshed.PopDue(now)
        else (refreshed.ClearPhase(item.phase), Some(item))
    }

    /** The instants that really count: body idle is the later of stale and progress. */
    function Effective(): Lanes {
      if progress.Some? && Holds(BodyIdle) && progress.value > lanes.ingress.value.at then
        lanes.(ingress := Some(Expiry(progress.value, BodyIdle)))
      else lanes
    }
  }

  const Empty := Times(NoLanes, None)

  // ------------------------------------------------------- the eager value

  function EagerSet(l: Lanes, at: Option<int>, p: Phase): Lanes {
    if at.None? then l else l.Set(LaneOf(p), Some(Expiry(at.value, p)))
  }

  function EagerRemove(l: Lanes, p: Phase): Lanes {
    if l.Get(LaneOf(p)).Some? && l.Get(LaneOf(p)).value.phase == p then l.Set(LaneOf(p), None) else l
  }

  /** Progress postpones the body-idle deadline at once, and never advances it. */
  function EagerProgress(l: Lanes, at: Option<int>): Lanes {
    if at.None? || l.ingress.None? || l.ingress.value.phase != BodyIdle || l.ingress.value.at >= at.value then l
    else l.(ingress := Some(Expiry(at.value, BodyIdle)))
  }

  function EagerApply(l: Lanes, c: Clock, step: Transition, now: int): Lanes {
    match step
    case Open => if l.total.Some? then l else EagerSet(l, c.Instant(Total, now), Total)
    case AwaitingHead => EagerSet(EagerSet(l, c.Instant(Total, now), Total), c.Instant(Head, now), Head)
    case HeadAdmitted => EagerSet(EagerRemove(l, Head), c.Instant(BodyIdle, now), BodyIdle)
    case InputAdmitted => EagerRemove(l, Head)
    case BodyProgress => EagerProgress(l, c.Instant(BodyIdle, now))
    case InputFinished => EagerRemove(l, BodyIdle)
    case HandlerStarted => EagerSet(l, c.Instant(Handler, now), Handler)
    case ResponseReady => EagerSet(EagerRemove(l, Handler), c.Instant(ResponseAdmission, now), ResponseAdmission)
    case ResponseCommitted => EagerRemove(EagerRemove(l, Handler), ResponseAdmission)
    case Retired => NoLanes
  }

  function EagerPop(l: Lanes, now: int): (Lanes, Option<Expiry>) {
    if l.Next().None? || l.Next().value.at > now then (l, None)
    else (l.Set(LaneOf(l.Next().value.phase), None), l.Next())
  }

  // ------------------------------------------------------- refinement

  /** Retained progress never lies before the deadline it postpones. */
  ghost predicate Ahead(t: Times) {
    t.Valid() && (t.progress.Some? ==> t.progress.value >= t.lanes.ingress.value.at)
  }

  /** The one case where visiting another lane advances the body-idle deadline. */
  predicate Advances(t: Times, now: int) {
    && t.progress.Some? && t.Holds(BodyIdle)
    && t.lanes.Next().Some? && t.lanes.Next().value.at <= now
    && t.lanes.Next().value.at < t.progress.value < t.lanes.ingress.value.at
  }

  /**
   Popping the lazy timeline returns what the eager one returns, and leaves it
   in agreement exactly when no deadline was advanced on the way.
   */
  lemma PopRefinesExactly(t: Times, now: int)
    requires t.Valid()
    ensures var (lazy, got) := t.PopDue(now);
            var (eager, want) := EagerPop(t.Effective(), now);
            && got == want && lazy.Valid()
            && (lazy.Effective() == eager <==> !Advances(t, now))
            && (Ahead(t) ==> Ahead(lazy) && !Advances(t, now))
  {
    NextIsLeast(t.lanes);
    NextIsLeast(t.Effective());
    if t.lanes.Next().Some? && t.lanes.Next().value.at <= now {
      var (refreshed, changed) := t.Refresh(t.lanes.Next().value.at);
      NextIsLeast(refreshed.lanes);
    }
  }

  /** Every deadline the clock can have set by `now`. */
  ghost predicate Bounded(t: Times, c: Clock, now: int) {
    && Ahead(t)
    && (t.Holds(BodyIdle) ==> c.window(BodyIdle).Some? && t.lanes.ingress.value.at <= c.Instant(BodyIdle, now).value)
    && (t.progress.Some? ==> t.progress.value <= c.Instant(BodyIdle, now).value)
  }

  /** Re-installing the resident body-idle instant keeps progress that lies beyond it. */
  predicate Reinstalls(t: Times, at: Option<int>) {
    at.Some? && t.lanes.ingress == Some(Expiry(at.value, BodyIdle)) && t.progress.Some? && t.progress.value > at.value
  }

  lemma InsertRefines(t: Times, at: Option<int>, p: Phase)
    requires t.Valid()
    ensures t.Insert(at, p).Valid()
    ensures t.Insert(at, p).Effective() == EagerSet(t.Effective(), at, p) <==> !(p == BodyIdle && Reinstalls(t, at))
  {
  }

  lemma RemoveRefines(t: Times, p: Phase)
    requires t.Valid()
    ensures t.Remove(p).Valid()
    ensures t.Remove(p).Effective() == EagerRemove(t.Effective(), p)
  {
  }

  /** A transition acts on the effective instants eagerly, but for that re-installation. */
  lemma ApplyRefinesExactly(t: Times, c: Clock, step: Transition, now: int)
    requires t.Valid()
    ensures t.Apply(c, step, now).Valid()
    ensures t.Apply(c, step, now).Effective() == EagerApply(t.Effective(), c, step, now)
       <==> !(step == HeadAdmitted && Reinstalls(t, c.Instant(BodyIdle, now)))
  {
    match step {
      case Open => InsertRefines(t, c.Instant(Total, now), Total);
      case AwaitingHead =>
        InsertRefines(t, c.Instant(Total, now), Total);
        InsertRefines(t.Insert(c.Instant(Total, now), Total), c.Instant(Head, now), Head);
      case HeadAdmitted =>
        RemoveRefines(t, Head);
        InsertRefines(t.Remove(Head), c.Instant(BodyIdle, now), BodyIdle);
      case HandlerStarted => InsertRefines(t, c.Instant(Handler, now), Handler);
      case ResponseReady =>
        RemoveRefines(t, Handler);
        InsertRefines(t.Remove(Handler), c.Instant(ResponseAdmission, now), ResponseAdmission);
      case ResponseCommitted =>
        RemoveRefines(t, Handler);
        RemoveRefines(t.Remove(Handler), ResponseAdmission);
      case InputAdmitted => RemoveRefines(t, Head);
      case InputFinished => RemoveRefines(t, BodyIdle);
      case BodyProgress =>
      case Retired =>
    }
  }

  /** A clock that does not run backwards never re-installs under progress. */
  lemma ApplyRefines(t: Times, c: Clock, step: Transition, before: int, now: int)
    requires c.Monotone() && before <= now && Bounded(t, c, before)
    ensures !Reinstalls(t, c.Instant(BodyIdle, now))
    ensures Bounded(t.Apply(c, step, now), c, now)
    ensures t.Apply(c, step, now).Effective() == EagerApply(t.Effective(), c, step, now)
  {
    if c.window(BodyIdle).Some? {
      InstantsAscend(c, before, now);
    }
    ApplyBounded(t, c, step, before, now);
    ApplyRefinesExactly(t, c, step, now);
  }

  lemma InstantsAscend(c: Clock, before: int, now: int)
    requires c.Monotone() && before <= now && c.window(BodyIdle).Some?
    ensures c.Instant(BodyIdle, before).value <= c.Instant(BodyIdle, now).value
  {
    assert c.add(before, c.window(BodyIdle).value) <= c.add(now, c.window(BodyIdle).value);
  }

  lemma ApplyBounded(t: Times, c: Clock, step: Transition, before: int, now: int)
    requires Bounded(t, c, before)
    requires c.window(BodyIdle).Some? ==> c.Instant(BodyIdle, before).value <= c.Instant(BodyIdle, now).value
    ensures !Reinstalls(t, c.Instant(BodyIdle, now))
    ensures Bounded(t.Apply(c, step, now), c, now)
  {
    if step == AwaitingHead {
      InsertBounded(t, c, Total, now);
      InsertBounded(t.Insert(c.Instant(Total, now), Total), c, Head, now);
    } else if step == HeadAdmitted {
      InsertBounded(t.Remove(Head), c, BodyIdle, now);
    } else if step == ResponseReady {
      InsertBounded(t.Remove(Handler), c, ResponseAdmission, now);
    }
  }

  lemma InsertBounded(t: Times, c: Clock, p: Phase, now: int)
    requires Bounded(t, c, now)
    ensures Bounded(t.Insert(c.Instant(p, now), p), c, now)
  {
  }

  lemma PopBounded(t: Times, c: Clock, clock: int, now: int)
    requires Bounded(t, c, clock)
    ensures Bounded(t.PopDue(now).0, c, clock)
  {
    PopRefinesExactly(t, now);
  }

  // ------------------------------------------------------- runs

  datatype Op = Step(change: Transition, now: int) | Pop(now: int)

  /** Final state and the result of every pop, in order. */
  function LazyRun(t: Times, c: Clock, ops: seq<Op>): (Times, seq<Option<Expiry>>)
    decreases ops
  {
    if ops == [] then (t, [])
    else
      match ops[0]
      case Step(change, now) => LazyRun(t.Apply(c, change, now), c, ops[1..])
      case Pop(now) =>
        var (after, got) := t.PopDue(now);
        var (end, rest) := LazyRun(after, c, ops[1..]);
        (end, [got] + rest)
  }

  function EagerRun(l: Lanes, c: Clock, ops: seq<Op>): (Lanes, seq<Option<Expiry>>)
    decreases ops
  {
    if ops == [] then (l, [])
    else
      match ops[0]
      case Step(change, now) => EagerRun(EagerApply(l, c, change, now), c, ops[1..])
      case Pop(now) =>
        var (after, got) := EagerPop(l, now);
        var (end, rest) := EagerRun(after, c, ops[1..]);
        (end, [got] + rest)
  }

  /** Transitions read a clock that does not run backwards. */
  predicate InOrder(ops: seq<Op>, clock: int) {
    if ops == [] then true
    else if ops[0].Pop? then InOrder(ops[1..], clock)
    else clock <= ops[0].now && InOrder(ops[1..], ops[0].now)
  }

  /** Over any run with a monotone clock the lazy timeline expires what the eager one does. */
  lemma {:induction false} RunRefines(t: Times, c: Clock, clock: int, ops: seq<Op>)
    requires c.Monotone() && Bounded(t, c, clock) && InOrder(ops, clock)
    ensures LazyRun(t, c, ops).1 == EagerRun(t.Effective(), c, ops).1
    ensures LazyRun(t, c, ops).0.Effective() == EagerRun(t.Effective(), c, ops).0
    decreases ops
  {
    if ops != [] {
      match ops[0] {
        case Step(change, now) =>
          ApplyRefines(t, c, change, clock, now);
          RunRefines(t.Apply(c, change, now), c, now, ops[1..]);
        case Pop(now) =>
          PopRefinesExactly(t, now);
          PopBounded(t, c, clock, now);
          RunRefines(t.PopDue(now).0, c, clock, ops[1..]);
      }
    }
  }

  /** Ten units in total, five of body idleness. */
  const ShortWindows :=
    Clock(p => if p == Total then Some(10) else if p == BodyIdle then Some(5) else None, (n, w) => n + w)

  /** Without the monotone clock the two can part: a total expiry advances body idle. */
  lemma ClockOrderMatters()
    ensures var c := ShortWindows;
            var ops := [Step(Open, 0), Step(HeadAdmitted, 10), Step(BodyProgress, 7), Pop(10), Pop(12)];
            && LazyRun(Empty, c, ops).1 == [Some(Expiry(10, Total)), Some(Expiry(12, BodyIdle))]
            && EagerRun(NoLanes, c, ops).1 == [Some(Expiry(10, Total)), None]
  {
    var c := ShortWindows;
    var ops := [Step(Open, 0), Step(HeadAdmitted, 10), Step(BodyProgress, 7), Pop(10), Pop(12)];
    var pops := [Pop(10), Pop(12)];
    assert ops[1..] == [Step(HeadAdmitted, 10), Step(BodyProgress, 7), Pop(10), Pop(12)];
    assert ops[1..][1..] == [Step(BodyProgress, 7), Pop(10), Pop(12)] && ops[1..][1..][1..] == pops;
    assert pops[1..] == [Pop(12)] && pops[1..][1..] == [];
    var begun := Empty.Apply(c, Open, 0);
    var reading := begun.Apply(c, HeadAdmitted, 10);
    var t := reading.Apply(c, BodyProgress, 7);
    assert t == Times(Lanes(Some(Expiry(10, Total)), Some(Expiry(15, BodyIdle)), None), Some(12));
    assert LazyRun(Empty, c, ops) == LazyRun(begun, c, ops[1..]) == LazyRun(reading, c, ops[1..][1..]);
    assert LazyRun(reading, c, ops[1..][1..]) == LazyRun(t, c, pops);
    var late := EagerApply(EagerApply(NoLanes, c, Open, 0), c, HeadAdmitted, 10);
    assert EagerApply(late, c, BodyProgress, 7) == late;
    assert EagerRun(NoLanes, c, ops) == EagerRun(late, c, ops[1..][1..]) == EagerRun(late, c, pops);
    LazyPops(t, c, 10, 12);
    EagerPops(late, c, 10, 12);
  }

  lemma LazyPops(t: Times, c: Clock, a: int, b: int)
    ensures LazyRun(t, c, [Pop(a), Pop(b)]).1 == [t.PopDue(a).1, t.PopDue(a).0.PopDue(b).1]
  {
    assert [Pop(a), Pop(b)][1..] == [Pop(b)] && [Pop(b)][1..] == [];
    assert LazyRun(t.PopDue(a).0, c, [Pop(b)]).1 == [t.PopDue(a).0.PopDue(b).1] + [];
  }

  lemma EagerPops(l: Lanes, c: Clock, a: int, b: int)
    ensures EagerRun(l, c, [Pop(a), Pop(b)]).1 == [EagerPop(l, a).1, EagerPop(EagerPop(l, a).0, b).1]
  {
    assert [Pop(a), Pop(b)][1..] == [Pop(b)] && [Pop(b)][1..] == [];
    assert EagerRun(EagerPop(l, a).0, c, [Pop(b)]).1 == [EagerPop(EagerPop(l, a).0, b).1] + [];
  }

  // ------------------------------------------------------- the object

  /** Effect of one mutation on the externally armed minimum. */
  datatype Mutation = Unchanged | Contents | Earliest

  function Between<T(==)>(before: T, after: T): Mutation {
    if before == after then Contents else Earliest
  }

  class Timeline {
    var lanes: Lanes
    var progress: Option<int>

    constructor ()
      ensures Abs() == Empty
    {
      lanes, progress := NoLanes, None;
    }

    function Abs(): Times
      reads this
    {
      Times(lanes, progress)
    }

    /** A mutation that is not reported as earliest leaves the minimum alone. */
    method Transition(c: Clock, step: Transition, now: int) returns (m: Mutation)
      requires Abs().Valid()
      modifies this
      ensures Abs() == old(Abs()).Apply(c, step, now) && Abs().Valid()
      ensures m == Earliest <==> lanes.Next() != old(lanes).Next()
      ensures m == Unchanged <==> Abs() == old(Abs())
    {
      var before := lanes.Next();
      var changed := Apply(c, step, now);
      m := if changed then Between(before, lanes.Next()) else Unchanged;
    }

    method Apply(c: Clock, step: Transition, now: int) returns (changed: bool)
      requires Abs().Valid()
      modifies this
      ensures Abs() == old(Abs()).Apply(c, step, now) && Abs().Valid()
      ensures changed <==> Abs() != old(Abs())
    {
      match step {
        case Open =>
          if lanes.total.Some? {
            return false;
          }
          changed := InsertAt(c.Instant(Total, now), Total);
        case AwaitingHead =>
          var total := InsertAt(c.Instant(Total, now), Total);
          var head := InsertAt(c.Instant(Head, now), Head);
          changed := total || head;
        case HeadAdmitted =>
          var removed := Remove(Head);
          var body := InsertAt(c.Instant(BodyIdle, now), BodyIdle);
          changed := removed || body;
        case InputAdmitted => changed := Remove(Head);
        case BodyProgress => changed := Advance(c.Instant(BodyIdle, now));
        case InputFinished => changed := Remove(BodyIdle);
        case HandlerStarted => changed := InsertAt(c.Instant(Handler, now), Handler);
        case ResponseReady =>
          var removed := Remove(Handler);
          var admission := InsertAt(c.Instant(ResponseAdmission, now), ResponseAdmission);
          changed := removed || admission;
        case ResponseCommitted =>
          var handler := Remove(Handler);
          var admission := Remove(ResponseAdmission);
          changed := handler || admission;
        case Retired => changed := Clear();
      }
    }

    method PopDue(now: int) returns (r: Option<Expiry>)
      requires Abs().Valid()
      modifies this
      ensures (Abs(), r) == old(Abs()).PopDue(now)
    {
      while true
        invariant Abs().PopDue(now) == old(Abs()).PopDue(now)
        decreases progress.Some?
      {
        var item := lanes.Next();
        if item.None? || item.value.at > now {
          return None;
        }
        var changed := Refresh(item.value.at);
        if !changed {
          ClearPhase(item.value.phase);
          return item;
        }
      }
    }

    method InsertAt(at: Option<int>, p: Phase) returns (changed: bool)
      requires Abs().Valid()
      modifies this
      ensures Abs() == old(Abs()).Insert(at, p) && Abs().Valid()
      ensures changed <==> at.Some? && old(lanes).Get(LaneOf(p)) != Some(Expiry(at.value, p))
    {
      if at.None? || lanes.Get(LaneOf(p)) == Some(Expiry(at.value, p)) {
        return false;
      }
      if LaneOf(p) == LaneOf(BodyIdle) {
        progress := None;
      }
      lanes := lanes.Set(LaneOf(p), Some(Expiry(at.value, p)));
      return true;
    }

    method Remove(p: Phase) returns (changed: bool)
      requires Abs().Valid()
      modifies this
      ensures Abs() == old(Abs()).Remove(p) && Abs().Valid()
      ensures changed <==> old(Abs()).Holds(p)
    {
      changed := Abs().Holds(p);
      if changed {
        ClearPhase(p);
      }
    }

    method ClearPhase(p: Phase)
      modifies this
      ensures Abs() == old(Abs()).ClearPhase(p)
    {
      lanes := lanes.Set(LaneOf(p), None);
      if p == BodyIdle {
        progress := None;
      }
    }

    method Advance(at: Option<int>) returns (changed: bool)
      modifies this`progress
      ensures Abs() == old(Abs()).Progress(at)
      ensures changed <==> Abs() != old(Abs())
    {
      if !Abs().Holds(BodyIdle) || at.None? || (progress.Some? && progress.value >= at.value) {
        return false;
      }
      progress := at;
      return true;
    }

    method Refresh(current: int) returns (changed: bool)
      modifies this
      ensures (Abs(), changed) == old(Abs()).Refresh(current)
    {
      var at := progress;
      progress := None;
      if at.None? || at.value <= current {
        return false;
      }
      lanes := lanes.(ingress := Some(Expiry(at.value, BodyIdle)));
      return true;
    }

    method Clear() returns (changed: bool)
      modifies this
      ensures Abs() == Empty && (changed <==> old(Abs()) != Empty)
    {
      if lanes == NoLanes && progress.None? {
        return false;
      }
      lanes, progress := NoLanes, None;
      return true;
    }
  }
}
