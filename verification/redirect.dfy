/**
 The client's redirect machine. URI parsing is a parameter; two targets share
 an origin when both have one and the normalised origins are equal.
 */
module Redirect {
  import opened Common

  datatype Method = Get | Head | Post | Other(name: string)

  datatype Target = Target(origin: Option<nat>, pathQuery: string)

  datatype Relation = Same | Cross

  function OriginRelation(a: Target, b: Target): Relation {
    if a.origin.Some? && a.origin == b.origin then Same else Cross
  }

  datatype Error = Location | LocationUtf8 | Limit | Loop | CrossOrigin | Unresolved(code: nat)

  /** `resolve` against a base, and the paths that need no owned target. */
  datatype Uri = Uri(
    resolve: (Target, string) -> Result<Target, nat>,
    borrow: (Target, string) -> Option<string>)
  {
    function Resolve(base: Target, location: string): Result<Target, Error> {
      match resolve(base, location)
      case Success(t) => Success(t)
      case Failure(code) => Failure(Unresolved(code))
    }

    /** Resolution that refuses to leave the current origin. */
    function Redirect(current: Target, location: string): Result<Target, Error> {
      var next := Resolve(current, location);
      if next.Success? && OriginRelation(current, next.value) == Cross then Failure(CrossOrigin) else next
    }
  }

  datatype Rewrite = Preserve | ToGet

  function Select(status: nat, m: Method): Option<Rewrite> {
    if status == 301 || status == 302 then Some(if m == Post then ToGet else Preserve)
    else if status == 303 then Some(if m == Head then Preserve else ToGet)
    else if status == 307 || status == 308 then Some(Preserve)
    else None
  }

  // ------------------------------------------------------- values

  datatype Trail = Trail(current: Target, prior: seq<Target>) {
    /** Whether the current target or one of the last `n` earlier ones has this path. */
    predicate Contains(path: string, n: nat) {
      || current.pathQuery == path
      || exists i :: 0 <= i < |prior| && i >= |prior| - n && prior[i].pathQuery == path
    }

    function Push(t: Target): Trail {
      Trail(t, prior + [current])
    }

    function All(): seq<Target> {
      prior + [current]
    }
  }

  datatype Place = AtPath(path: string) | Moved(trail: Trail, relation: Relation)

  datatype Progress = Progress(limit: nat, phaseLimit: nat, base: Target, place: Place)

  datatype Exchange = Exchange(target: Progress, verb: Method, body: Option<Bytes>)

  function Begin(uri: Uri, limit: nat, base: Target, path: string): Result<Progress, Error> {
    match uri.borrow(base, path)
    case Some(p) => Success(Progress(limit, limit, base, AtPath(p)))
    case None =>
      match uri.Resolve(base, path)
      case Failure(e) => Failure(e)
      case Success(t) => Success(Progress(limit, limit, base, Moved(Trail(t, []), OriginRelation(base, t))))
  }

  /** One followed redirect; `changed` says the method was rewritten. */
  function AdvanceProgress(uri: Uri, s: Progress, location: string, changed: bool): Result<Progress, Error>
    requires s.phaseLimit >= s.limit
  {
    if s.limit == 0 then Failure(Limit)
    else
      var left := s.limit - 1;
      var phase := if changed then left else s.phaseLimit;
      match s.place
      case AtPath(path) =>
        var initial := uri.Resolve(s.base, path);
        if initial.Failure? then Failure(initial.error)
        else
          var next := uri.Redirect(initial.value, location);
          if next.Failure? then Failure(next.error)
          else if !changed && initial.value.pathQuery == next.value.pathQuery then Failure(Loop)
          else Success(Progress(left, phase, s.base, Moved(Trail(initial.value, []).Push(next.value), Same)))
      case Moved(trail, relation) =>
        var next := uri.Redirect(trail.current, location);
        if next.Failure? then Failure(next.error)
        else if !changed && trail.Contains(next.value.pathQuery, s.phaseLimit - s.limit) then Failure(Loop)
        else Success(Progress(left, phase, s.base, Moved(trail.Push(next.value), relation)))
  }

  datatype Header = Absent | NotUtf8 | Text(value: string)

  datatype Response = Response(status: nat, location: Header)

  datatype Action = Complete | Follow(next: Exchange)

  /** The redirect decision at one response boundary. */
  function Respond(uri: Uri, m: Exchange, r: Response): Result<Action, Error>
    requires m.target.phaseLimit >= m.target.limit
  {
    match Select(r.status, m.verb)
    case None => Success(Complete)
    case Some(rewrite) =>
      match r.location
      case Absent => Failure(Location)
      case NotUtf8 => Failure(LocationUtf8)
      case Text(location) =>
        var changed := rewrite == ToGet && m.verb != Get;
        match AdvanceProgress(uri, m.target, location, changed)
        case Failure(e) => Failure(e)
        case Success(target) =>
          Success(Follow(if rewrite == Preserve then Exchange(target, m.verb, m.body)
                         else Exchange(target, Get, None)))
  }

  /**
   Five statuses redirect and every other one completes. 307 and 308 repeat the request;
   303 turns it into GET without content unless it is HEAD, 301 and 302 only if it is POST.
   */
  lemma StatusDecides(uri: Uri, m: Exchange, r: Response)
    requires m.target.phaseLimit >= m.target.limit
    ensures var done := Respond(uri, m, r);
            var redirects := r.status in {301, 302, 303, 307, 308};
            var toGet := (r.status == 303 && m.verb != Head) || (r.status in {301, 302} && m.verb == Post);
            && (done == Success(Complete) <==> !redirects)
            && (redirects && r.location == Absent ==> done == Failure(Location))
            && (redirects && r.location == NotUtf8 ==> done == Failure(LocationUtf8))
            && (redirects && r.location.Text? && m.target.limit == 0 ==> done == Failure(Limit))
            && (done.Success? && done.value.Follow? ==>
                  && redirects && r.location.Text?
                  && done.value.next.verb == (if toGet then Get else m.verb)
                  && done.value.next.body == (if toGet then None else m.body))
  {
  }

  /** A redirect is refused as leaving the origin exactly when the target it resolves to, from the
      last one requested, lacks that origin. */
  lemma OriginsAreKept(uri: Uri, m: Exchange, r: Response)
    requires m.target.phaseLimit >= m.target.limit > 0
    requires r.status in {301, 302, 303, 307, 308} && r.location.Text?
    requires Visited(uri, m) != []
    ensures var seen := Visited(uri, m);
            var here := seen[|seen| - 1];
            var there := uri.resolve(here, r.location.value);
            && (there.Failure? ==> Respond(uri, m, r) == Failure(Unresolved(there.error)))
            && (there.Success? ==>
                  (Respond(uri, m, r) == Failure(CrossOrigin) <==>
                   here.origin == None || there.value.origin != here.origin))
  {
  }

  // ------------------------------------------------------- runs

  /** The exchange after every response of `rs` was followed, if all were. */
  function After(uri: Uri, m: Exchange, rs: seq<Response>): (r: Option<Exchange>)
    requires m.target.phaseLimit >= m.target.limit
    ensures r.Some? ==> r.value.target.phaseLimit >= r.value.target.limit
    decreases rs
  {
    if rs == [] then Some(m)
    else
      var k := |rs| - 1;
      match After(uri, m, rs[..k])
      case None => None
      case Some(x) =>
        match Respond(uri, x, rs[k])
        case Success(Follow(next)) => Some(next)
        case _ => None
  }

  /** Every target requested so far, in order. */
  function Visited(uri: Uri, m: Exchange): seq<Target> {
    match m.target.place
    case Moved(trail, _) => trail.All()
    case AtPath(path) =>
      match uri.Resolve(m.target.base, path)
      case Success(t) => [t]
      case Failure(_) => []
  }

  ghost predicate Started(m: Exchange) {
    && m.target.phaseLimit == m.target.limit
    && (m.target.place.Moved? ==> m.target.place.trail.prior == [])
  }

  /** Hops taken under the current method, counted by the two limits. */
  function PhaseHops(m: Exchange): nat
    requires m.target.phaseLimit >= m.target.limit
  {
    m.target.phaseLimit - m.target.limit
  }

  /** What a run of `n` followed redirects from `start` has established. */
  ghost predicate RunFacts(uri: Uri, start: Exchange, m: Exchange, n: nat)
    requires m.target.phaseLimit >= m.target.limit
  {
    var seen := Visited(uri, m);
    && m.target.limit + n == start.target.limit
    && m.target.base == start.target.base
    && PhaseHops(m) <= n
    && (n > 0 ==> m.target.place.Moved? && |seen| == n + 1)
    && (forall i :: 0 <= i < |seen| && n > 0 ==> OriginRelation(seen[0], seen[i]) == Same)
    && (forall i, j :: n - PhaseHops(m) <= i < j < |seen| ==> seen[i].pathQuery != seen[j].pathQuery)
    && (if PhaseHops(m) == n then m.verb == start.verb else m.verb == Get && start.verb != Get && m.body == None)
    && (m.body == start.body || (m.verb == Get && m.body == None))
  }

  /** What one advance adds: a last target, on the same origin, new to its phase. */
  lemma AdvanceFacts(uri: Uri, m: Exchange, location: string, changed: bool, next: Exchange)
    requires m.target.phaseLimit >= m.target.limit
    requires AdvanceProgress(uri, m.target, location, changed) == Success(next.target)
    ensures next.target.limit == m.target.limit - 1 && next.target.base == m.target.base
    ensures next.target.phaseLimit == if changed then next.target.limit else m.target.phaseLimit
    ensures next.target.place.Moved?
    ensures var before, after := Visited(uri, m), Visited(uri, next);
            var k := |before|;
            && k > 0 && |after| == k + 1 && after[..k] == before
            && OriginRelation(after[k - 1], after[k]) == Same
            && (!changed ==> forall i :: 0 <= i < k && i >= k - 1 - PhaseHops(m) ==>
                  after[i].pathQuery != after[k].pathQuery)
  {
  }

  lemma HopFacts(uri: Uri, start: Exchange, x: Exchange, n: nat, r: Response)
    requires x.target.phaseLimit >= x.target.limit && RunFacts(uri, start, x, n)
    requires n == 0 ==> x == start && Started(start)
    ensures match Respond(uri, x, r)
            case Success(Follow(m)) =>
              RunFacts(uri, start, m, n + 1) && Visited(uri, m)[..n + 1] == Visited(uri, x)
              && PhaseHops(m) == if m.verb == x.verb then PhaseHops(x) + 1 else 0
            case _ => true
  {
    hide AdvanceProgress;
    match Respond(uri, x, r) {
      case Success(Follow(m)) =>
        var changed := Select(r.status, x.verb).value == ToGet && x.verb != Get;
        AdvanceFacts(uri, x, r.location.value, changed, m);
        var seen, before := Visited(uri, m), Visited(uri, x);
        assert |before| == n + 1;
        forall i | 0 <= i < |seen| ensures OriginRelation(seen[0], seen[i]) == Same {
          assert i <= n ==> seen[i] == before[i];
          assert seen[0] == before[0] && seen[n] == before[n];
          assert n > 0 ==> OriginRelation(before[0], before[n]) == Same;
        }
        forall i, j | n + 1 - PhaseHops(m) <= i < j < |seen| ensures seen[i].pathQuery != seen[j].pathQuery {
          if j <= n {
            assert seen[i] == before[i] && seen[j] == before[j];
          }
        }
      case _ =>
    }
  }

  lemma {:induction false} RunHolds(uri: Uri, start: Exchange, rs: seq<Response>)
    requires Started(start) && After(uri, start, rs).Some?
    ensures RunFacts(uri, start, After(uri, start, rs).value, |rs|)
    ensures |rs| == 0 ==> After(uri, start, rs).value == start
    decreases |rs|
  {
    if rs != [] {
      var k := |rs| - 1;
      RunHolds(uri, start, rs[..k]);
      hide Respond, RunFacts, Visited;
      HopFacts(uri, start, After(uri, start, rs[..k]).value, k, rs[k]);
    }
  }

  /** What was requested after a prefix of the run, and how the phase stood then. */
  lemma {:induction false} PrefixKept(uri: Uri, start: Exchange, rs: seq<Response>, i: nat)
    requires Started(start) && After(uri, start, rs).Some? && i <= |rs| && rs != []
    ensures After(uri, start, rs[..i]).Some?
    ensures var x, m := After(uri, start, rs[..i]).value, After(uri, start, rs).value;
            && |Visited(uri, m)| == |rs| + 1 && Visited(uri, m)[..i + 1] == Visited(uri, x)
            && |Visited(uri, x)| == i + 1
            && (x.verb == m.verb ==> i >= |rs| - PhaseHops(m))
            && (x.verb != m.verb ==> m.verb == Get && m.body == None)
            && (x.body == None ==> m.body == None)
    decreases |rs|
  {
    var k := |rs| - 1;
    RunHolds(uri, start, rs);
    RunHolds(uri, start, rs[..k]);
    HopFacts(uri, start, After(uri, start, rs[..k]).value, k, rs[k]);
    if i == |rs| {
      assert rs[..i] == rs;
    } else if k == 0 {
      assert rs[..i] == rs[..k] == [];
    } else {
      assert rs[..i] == rs[..k][..i];
      PrefixKept(uri, start, rs[..k], i);
    }
  }

  /**
   A run begun by `Begin` follows at most `limit` redirects, stays on the first
   target's origin, and rewrites the method at most once, to GET without content.
   */
  lemma RunIsBounded(uri: Uri, limit: nat, base: Target, path: string, verb: Method, body: Bytes,
                     rs: seq<Response>)
    requires Begin(uri, limit, base, path).Success?
    requires After(uri, Exchange(Begin(uri, limit, base, path).value, verb, Some(body)), rs).Some?
    ensures var m := After(uri, Exchange(Begin(uri, limit, base, path).value, verb, Some(body)), rs).value;
            && |rs| + m.target.limit == limit
            && (rs != [] ==> forall t :: t in Visited(uri, m) ==> OriginRelation(Visited(uri, m)[0], t) == Same)
            && (rs != [] ==> forall t :: t in Visited(uri, m) ==>
                  t.origin.Some? && t.origin == Visited(uri, m)[0].origin)
            && (m.verb == verb || m.verb == Get)
            && (m.body == Some(body) || (m.verb == Get && m.body == None))
            && (m.verb != verb ==> m.body == None)
  {
    RunHolds(uri, Exchange(Begin(uri, limit, base, path).value, verb, Some(body)), rs);
  }

  /** After a rewrite the method is GET without content at every later point. */
  lemma RewrittenOnce(uri: Uri, start: Exchange, rs: seq<Response>, i: nat, j: nat)
    requires Started(start) && After(uri, start, rs).Some? && i <= j <= |rs|
    ensures After(uri, start, rs[..i]).Some? && After(uri, start, rs[..j]).Some?
    ensures var x, y := After(uri, start, rs[..i]).value, After(uri, start, rs[..j]).value;
            && (x.verb != start.verb ==> y.verb == x.verb == Get)
            && (x.body != start.body ==> y.body == x.body == None && y.verb == Get)
  {
    if rs != [] {
      PrefixKept(uri, start, rs, j);
      assert rs[..j][..i] == rs[..i];
      if j > 0 {
        PrefixKept(uri, start, rs[..j], i);
        RunHolds(uri, start, rs[..j]);
      }
      RunHolds(uri, start, rs[..i]);
    }
  }

  /** Two requests under one method never repeat a path and query. */
  lemma NoLoopWithinMethod(uri: Uri, start: Exchange, rs: seq<Response>, i: nat, j: nat)
    requires Started(start) && After(uri, start, rs).Some? && i < j <= |rs|
    ensures After(uri, start, rs[..i]).Some? && After(uri, start, rs[..j]).Some?
    ensures After(uri, start, rs[..i]).value.verb == After(uri, start, rs[..j]).value.verb ==>
              var seen := Visited(uri, After(uri, start, rs).value);
              |seen| == |rs| + 1 && seen[i].pathQuery != seen[j].pathQuery
  {
    PrefixKept(uri, start, rs, j);
    DistinctSoFar(uri, start, rs[..j], i);
    assert rs[..j][..i] == rs[..i];
    var seen := Visited(uri, After(uri, start, rs).value);
    assert seen[..j + 1][i] == seen[i] && seen[..j + 1][j] == seen[j];
  }

  lemma DistinctSoFar(uri: Uri, start: Exchange, rs: seq<Response>, i: nat)
    requires Started(start) && After(uri, start, rs).Some? && i < |rs|
    ensures After(uri, start, rs[..i]).Some?
    ensures After(uri, start, rs[..i]).value.verb == After(uri, start, rs).value.verb ==>
              var seen := Visited(uri, After(uri, start, rs).value);
              |seen| == |rs| + 1 && seen[i].pathQuery != seen[|rs|].pathQuery
  {
    PrefixKept(uri, start, rs, i);
    RunHolds(uri, start, rs);
  }

  /**
   With budget left and a same-origin target, a redirect is refused exactly when
   it would repeat a request of the current phase without changing the method.
   */
  lemma LoopExactlyOnRepeat(uri: Uri, start: Exchange, rs: seq<Response>, r: Response)
    requires Started(start) && After(uri, start, rs).Some?
    requires r.location.Text?
    ensures var x := After(uri, start, rs).value;
            var seen := Visited(uri, x);
            x.target.limit > 0 && Select(r.status, x.verb).Some? && seen != [] ==>
              var next := uri.Redirect(seen[|seen| - 1], r.location.value);
              var changed := Select(r.status, x.verb).value == ToGet && x.verb != Get;
              && |seen| == |rs| + 1
              && (next.Failure? ==> Respond(uri, x, r) == Failure(next.error))
              && (next.Success? ==>
                    (Respond(uri, x, r) == Failure(Loop) <==>
                     !changed && exists i :: 0 <= i <= |rs| && i >= |rs| - PhaseHops(x) &&
                                             seen[i].pathQuery == next.value.pathQuery))
              && (next.Success? && Respond(uri, x, r) != Failure(Loop) ==>
                    && Respond(uri, x, r).Success? && Respond(uri, x, r).value.Follow?
                    && Visited(uri, Respond(uri, x, r).value.next) == seen + [next.value])
  {
    RunHolds(uri, start, rs);
    var x := After(uri, start, rs).value;
    var seen := Visited(uri, x);
    if x.target.place.Moved? && |seen| == |rs| + 1 {
      var trail := x.target.place.trail;
      forall path: string ensures trail.Contains(path, PhaseHops(x)) <==>
          exists i :: 0 <= i <= |rs| && i >= |rs| - PhaseHops(x) && seen[i].pathQuery == path
      {
        assert seen[|rs|] == trail.current;
        assert forall i :: 0 <= i < |rs| ==> seen[i] == trail.prior[i];
      }
    }
  }

  // ------------------------------------------------------- objects

  /** The loop history, extended in place as redirects are followed. */
  class History {
    var current: Target
    var prior: seq<Target>

    constructor (first: Target)
      ensures Abs() == Trail(first, [])
    {
      current, prior := first, [];
    }

    ghost function Abs(): Trail
      reads this
    {
      Trail(current, prior)
    }

    method Contains(target: Target, n: nat) returns (found: bool)
      ensures found == Abs().Contains(target.pathQuery, n)
    {
      if current.pathQuery == target.pathQuery {
        return true;
      }
      var i, taken := |prior|, 0;
      while i > 0 && taken < n
        invariant 0 <= i <= |prior| && taken == |prior| - i && taken <= n
        invariant forall k :: i <= k < |prior| ==> prior[k].pathQuery != target.pathQuery
      {
        i, taken := i - 1, taken + 1;
        if prior[i].pathQuery == target.pathQuery {
          return true;
        }
      }
      return false;
    }

    method Push(target: Target)
      modifies this
      ensures Abs() == old(Abs()).Push(target)
    {
      prior := prior + [current];
      current := target;
    }
  }

  datatype Current = Borrowed(path: string) | Owned(visited: History, relation: Relation)

  /** Redirect state: consumed by each advance, its history carried along. */
  datatype State = State(limit: nat, phaseLimit: nat, base: Target, current: Current) {
    ghost function Abs(): Progress
      reads if current.Owned? then {current.visited} else {}
    {
      Progress(limit, phaseLimit, base,
               match current
               case Borrowed(path) => AtPath(path)
               case Owned(visited, relation) => Moved(visited.Abs(), relation))
    }

    static method New(uri: Uri, limit: nat, base: Target, path: string) returns (r: Result<State, Error>)
      ensures r.Failure? ==> Begin(uri, limit, base, path) == Failure(r.error)
      ensures r.Success? ==> Begin(uri, limit, base, path) == Success(r.value.Abs())
    {
      var borrowed := uri.borrow(base, path);
      if borrowed.Some? {
        return Success(State(limit, limit, base, Borrowed(borrowed.value)));
      }
      var target := uri.Resolve(base, path);
      if target.Failure? {
        return Failure(target.error);
      }
      var visited := new History(target.value);
      r := Success(State(limit, limit, base, Owned(visited, OriginRelation(base, target.value))));
    }

    method Advance(uri: Uri, location: string, changed: bool) returns (r: Result<State, Error>)
      requires phaseLimit >= limit
      modifies if current.Owned? then {current.visited} else {}
      ensures r.Failure? ==> AdvanceProgress(uri, old(Abs()), location, changed) == Failure(r.error)
      ensures r.Success? ==> AdvanceProgress(uri, old(Abs()), location, changed) == Success(r.value.Abs())
    {
      if limit == 0 {
        return Failure(Limit);
      }
      var visited, kept;
      match current {
        case Borrowed(path) =>
          var initial := uri.Resolve(base, path);
          if initial.Failure? {
            return Failure(initial.error);
          }
          var next := uri.Redirect(initial.value, location);
          if next.Failure? {
            return Failure(next.error);
          }
          if !changed && initial.value.pathQuery == next.value.pathQuery {
            return Failure(Loop);
          }
          visited := new History(initial.value);
          visited.Push(next.value);
          kept := Same;
        case Owned(history, relation) =>
          var next := uri.Redirect(history.current, location);
          if next.Failure? {
            return Failure(next.error);
          }
          if !changed {
            var repeated := history.Contains(next.value, phaseLimit - limit);
            if repeated {
              return Failure(Loop);
            }
          }
          history.Push(next.value);
          visited, kept := history, relation;
      }
      r := Success(State(limit - 1, if changed then limit - 1 else phaseLimit, base, Owned(visited, kept)));
    }
  }
}
