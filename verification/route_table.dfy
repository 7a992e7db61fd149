/**
 The gRPC route compiler: a byte trie built by insertion, and the nested
 `if`/`match` code emitted from it with single-child chains compressed.
 */
module RouteTable {
  import opened Common

  /** A service method; `id` stands for everything but its path. */
  datatype Method = Method(path: Bytes, id: nat)

  /** What the emitted code decides for one request path. */
  datatype Outcome = Miss | Selected(m: Method)

  /** The guards that occur in the emitted code. */
  datatype Guard =
    | Slice(from: nat, to: nat, literal: Bytes)  // path.get(from..to) == Some(literal)
    | Length(n: nat)                             // path.len() == n
    | And(left: Guard, right: Guard)

  /** The emitted control structure; `Otherwise` is a copy of the miss tokens. */
  datatype Code =
    | Otherwise
    | Accept(m: Method)
    | If(guard: Guard, thn: Code, els: Code)
    | Match(at: nat, arms: seq<Arm>)  // the wildcard arm is the miss

  datatype Arm = Arm(tag: byte, guard: Option<Guard>, body: Code)

  predicate Holds(g: Guard, path: Bytes) {
    match g
    case Slice(from, to, literal) => from <= to <= |path| && path[from..to] == literal
    case Length(n) => |path| == n
    case And(l, r) => Holds(l, path) && Holds(r, path)
  }

  predicate Passes(g: Option<Guard>, path: Bytes) {
    g.Some? ==> Holds(g.value, path)
  }

  /** The meaning of emitted code on one request path. */
  function Eval(c: Code, path: Bytes): Outcome
    decreases c
  {
    match c
    case Otherwise => Miss
    case Accept(m) => Selected(m)
    case If(g, t, e) => if Holds(g, path) then Eval(t, path) else Eval(e, path)
    case Match(at, arms) => if at < |path| then EvalArms(arms, path[at], path) else Miss
  }

  /** The first arm whose tag and guard both match; the wildcard otherwise. */
  function EvalArms(arms: seq<Arm>, b: byte, path: Bytes): Outcome
    decreases arms
  {
    if arms == [] then Miss
    else if arms[0].tag == b && Passes(arms[0].guard, path) then EvalArm(arms[0], path)
    else EvalArms(arms[1..], b, path)
  }

  function EvalArm(arm: Arm, path: Bytes): Outcome
    decreases arm
  {
    Eval(arm.body, path)
  }

  /** Appending an arm only matters when no earlier arm was taken. */
  lemma {:induction false} EvalArmsAppend(arms: seq<Arm>, arm: Arm, b: byte, path: Bytes)
    requires forall k :: 0 <= k < |arms| ==> arms[k].tag != arm.tag
    ensures EvalArms(arms + [arm], b, path)
         == if arm.tag == b && Passes(arm.guard, path) then Eval(arm.body, path)
            else EvalArms(arms, b, path)
  {
    if arms == [] {
      assert arms + [arm] == [arm];
    } else {
      assert (arms + [arm])[1..] == arms[1..] + [arm];
      EvalArmsAppend(arms[1..], arm, b, path);
    }
  }

  /** Guard and branch of a node at `at`: its own route, if any, before the deeper ones. */
  function Branched(at: nat, prefix: Option<Guard>, route: Option<Method>, leaf: bool, next: Code)
    : (Option<Guard>, Code)
  {
    if route.None? then (prefix, next)
    else if leaf then
      (Some(if prefix.Some? then And(prefix.value, Length(at)) else Length(at)), Accept(route.value))
    else (prefix, If(Length(at), Accept(route.value), next))
  }

  /** They decide a path as `want` says, if prefix and deeper code do. */
  lemma Decides(at: Bytes, prefix: Option<Guard>, route: Option<Method>, leaf: bool, next: Code, path: Bytes,
                want: Outcome)
    requires Passes(prefix, path) <==> at <= path
    requires !(at <= path) ==> want == Miss
    requires at < path ==> Eval(next, path) == want && (leaf ==> want == Miss)
    requires path == at ==> want == if route.Some? then Selected(route.value) else Eval(next, path)
    ensures var (guard, branch) := Branched(|at|, prefix, route, leaf, next);
            want == if Passes(guard, path) then Eval(branch, path) else Miss
  {
    var exact := Length(|at|);
    assert Holds(exact, path) <==> |path| == |at|;
    assert at <= path && |path| == |at| ==> path == at;
    if prefix.Some? {
      assert Holds(And(prefix.value, exact), path) <==> Holds(prefix.value, path) && |path| == |at|;
    }
  }

  function Init(p: Bytes): Bytes
    requires p != []
  {
    p[..|p| - 1]
  }

  function Last(p: Bytes): byte
    requires p != []
  {
    p[|p| - 1]
  }

  type Links = map<Bytes, map<byte, Table>>

  /** Every child sits one byte below its parent's position. */
  ghost predicate Downward(nodes: map<Bytes, Table>, links: Links) {
    && links.Keys == nodes.Keys
    && forall p, b: byte {:trigger links[p][b]} {:trigger b in links[p]} :: p in links && b in links[p] ==>
         p + [b] in nodes && links[p][b] == nodes[p + [b]]
  }

  /** Every position but the root is a child of the position above it. */
  ghost predicate Upward(links: Links) {
    && [] in links
    && forall p {:trigger Init(p)} ::
         p in links && p != [] ==> Init(p) in links && Last(p) in links[Init(p)]
  }

  ghost function LinksOf(nodes: map<Bytes, Table>): Links
    reads nodes.Values
  {
    map p | p in nodes :: nodes[p].children
  }

  /** The trie as a flat, unshared index from positions to nodes. */
  ghost predicate Linked(nodes: map<Bytes, Table>)
    reads nodes.Values
    ensures Linked(nodes) ==> [] in nodes
  {
    && Downward(nodes, LinksOf(nodes))
    && Upward(LinksOf(nodes))
    && (forall p, q :: p in nodes && q in nodes && p != q ==> nodes[p] != nodes[q])
  }

  lemma LinksGrow(nodes: map<Bytes, Table>, links: Links, p: Bytes, b: byte, child: Table)
    requires Downward(nodes, links) && Upward(links)
    requires p in links && b !in links[p]
    ensures p + [b] !in nodes
    ensures Downward(nodes[p + [b] := child], links[p := links[p][b := child]][p + [b] := map[]])
    ensures Upward(links[p := links[p][b := child]][p + [b] := map[]])
  {
    assert Init(p + [b]) == p && Last(p + [b]) == b;
    var next := links[p := links[p][b := child]][p + [b] := map[]];
    var after := nodes[p + [b] := child];
    forall q, c: byte | q in next && c in next[q] ensures q + [c] in after && next[q][c] == after[q + [c]] {
      if q != p || c != b {
        assert Init(q + [c]) == q && Last(q + [c]) == c;
      }
    }
  }

  /** The positions deeper than `n`; the measure of the emission recursion. */
  ghost function Below(nodes: map<Bytes, Table>, n: nat): set<Bytes> {
    set q | q in nodes && |q| > n
  }

  lemma BelowShrinks(nodes: map<Bytes, Table>, q: Bytes)
    requires q in nodes && q != []
    ensures Below(nodes, |q|) < Below(nodes, |q| - 1)
  {
    assert q in Below(nodes, |q| - 1);
  }

  lemma Singleton<T>(s: set<T>, x: T)
    requires |s| == 1 && x in s
    ensures s == {x}
  {
    assert |s - {x}| == 0;
  }

  /** A position strictly below `p` is reached through one of `p`'s children. */
  lemma {:induction false} OnlyThroughChildren(nodes: map<Bytes, Table>, p: Bytes, path: Bytes)
    requires Linked(nodes) && p in nodes && p < path
    ensures path in nodes ==> path[|p|] in nodes[p].children
    decreases |path|
  {
    if path in nodes && |path| > |p| + 1 {
      OnlyThroughChildren(nodes, p, Init(path));
    } else if path in nodes {
      assert Init(path) == p;
    }
  }

  /** The route stored at one position of the trie. */
  ghost function RouteAt(nodes: map<Bytes, Table>, p: Bytes): Option<(nat, Method)>
    reads nodes.Values
  {
    if p in nodes then nodes[p].route else None
  }

  /** What the trie itself says about one request path. */
  ghost function Lookup(nodes: map<Bytes, Table>, path: Bytes): Outcome
    reads nodes.Values
  {
    match RouteAt(nodes, path)
    case None => Miss
    case Some(route) => Selected(route.1)
  }

  /** One trie node. Ghost `nodes` parameters index the whole trie around it. */
  class Table {
    var route: Option<(nat, Method)>
    var children: map<byte, Table>

    constructor ()
      ensures route == None && children == map[]
    {
      route := None;
      children := map[];
    }

    /** Stores one method, or reports the index already holding its path. */
    method Insert(ghost nodes: map<Bytes, Table>, m: Method, index: nat)
      returns (r: Result<(), (nat, nat)>, ghost after: map<Bytes, Table>)
      requires Linked(nodes) && nodes[[]] == this
      modifies nodes.Values
      ensures Linked(after) && after[[]] == this
      ensures fresh(after.Values - nodes.Values)
      ensures match old(RouteAt(nodes, m.path))
              case Some(first) => r == Failure((first.0, index))
              case None => r == Success(())
      ensures forall p :: RouteAt(after, p) ==
                          if r.Success? && p == m.path then Some((index, m)) else old(RouteAt(nodes, p))
    {
      hide Downward, Upward, LinksOf;
      var node := this;
      var i := 0;
      after := nodes;
      while i < |m.path|
        invariant 0 <= i <= |m.path|
        invariant Linked(after) && after[[]] == this
        invariant fresh(after.Values - nodes.Values)
        invariant m.path[..i] in after && after[m.path[..i]] == node
        invariant forall p :: RouteAt(after, p) == old(RouteAt(nodes, p))
      {
        node, after := node.Descend(after, m.path[..i], m.path[i]);
        assert m.path[..i] + [m.path[i]] == m.path[..i + 1];
        i := i + 1;
      }
      assert m.path[..i] == m.path;
      assert RouteAt(after, m.path) == node.route;
      if node.route.Some? {
        return Failure((node.route.value.0, index)), after;
      }
      node.Store(after, m.path, m, index);
      return Success(()), after;
    }

    /** Puts a route on this node, which sits at `p`. */
    method Store(ghost nodes: map<Bytes, Table>, ghost p: Bytes, m: Method, index: nat)
      requires Linked(nodes) && p in nodes && nodes[p] == this
      modifies this`route
      ensures Linked(nodes)
      ensures forall q :: RouteAt(nodes, q) == if q == p then Some((index, m)) else old(RouteAt(nodes, q))
    {
      hide Downward, Upward;
      route := Some((index, m));
      assert LinksOf(nodes) == old(LinksOf(nodes));
    }

    /** The child under `b`, created empty when absent. */
    method Descend(ghost nodes: map<Bytes, Table>, ghost p: Bytes, b: byte)
      returns (child: Table, ghost after: map<Bytes, Table>)
      requires Linked(nodes) && p in nodes && nodes[p] == this
      modifies this`children
      ensures Linked(after) && p + [b] in after && after[p + [b]] == child
      ensures after[[]] == nodes[[]] && fresh(after.Values - nodes.Values)
      ensures forall q :: RouteAt(after, q) == old(RouteAt(nodes, q))
    {
      if b in children {
        child, after := children[b], nodes;
      } else {
        hide Downward, Upward;
        child := new Table();
        LinksGrow(nodes, LinksOf(nodes), p, b, child);
        after := nodes[p + [b] := child];
        Attach(nodes, p, b, child);
        hide LinksOf, RouteAt;
        assert after.Values <= nodes.Values + {child};
      }
    }

    /** Links a new, empty child under `b`; no other link and no route changes. */
    method Attach(ghost nodes: map<Bytes, Table>, ghost p: Bytes, b: byte, child: Table)
      requires p in nodes && nodes[p] == this && p + [b] !in nodes && child !in nodes.Values
      requires forall q, r :: q in nodes && r in nodes && q != r ==> nodes[q] != nodes[r]
      requires child.route == None && child.children == map[]
      modifies this`children
      ensures var after := nodes[p + [b] := child];
              && LinksOf(after) == old(LinksOf(nodes)[p := children[b := child]][p + [b] := map[]])
              && forall q :: RouteAt(after, q) == old(RouteAt(nodes, q))
    {
      children := children[b := child];
    }

    /** Follows routeless single-child nodes, collecting their bytes. */
    method Chain(ghost nodes: map<Bytes, Table>, ghost p: Bytes) returns (node: Table, literal: Bytes)
      requires Linked(nodes) && p in nodes && nodes[p] == this
      ensures p + literal in nodes && nodes[p + literal] == node
      ensures forall path :: p <= path && !(p + literal <= path) ==> Lookup(nodes, path) == Miss
    {
      node, literal := this, [];
      assert p + literal == p;
      while node.route.None? && |node.children| == 1
        invariant p + literal in nodes && nodes[p + literal] == node
        invariant forall path :: p <= path && !(p + literal <= path) ==> Lookup(nodes, path) == Miss
        decreases Below(nodes, |p + literal|)
      {
        ghost var q := p + literal;
        var b :| b in node.children.Keys;
        assert node.children.Keys == {b} by { Singleton(node.children.Keys, b); }
        forall path | q <= path && !(q + [b] <= path) ensures Lookup(nodes, path) == Miss {
          if path != q {
            OnlyThroughChildren(nodes, q, path);
          }
        }
        literal, node := literal + [b], node.children[b];
        assert p + literal == q + [b];
        BelowShrinks(nodes, q + [b]);
      }
    }

    /** Guard and code for the paths below this node, which sits at `offset`. */
    method EmitAt(ghost nodes: map<Bytes, Table>, ghost p: Bytes, offset: nat)
      returns (guard: Option<Guard>, branch: Code)
      requires Linked(nodes) && p in nodes && nodes[p] == this && offset == |p|
      ensures forall path {:trigger Lookup(nodes, path)} :: p <= path ==>
                Lookup(nodes, path) == if Passes(guard, path) then Eval(branch, path) else Miss
      decreases Below(nodes, |p|), 1
    {
      var node, literal := Chain(nodes, p);
      var end := offset + |literal|;
      guard := if literal == [] then None else Some(Slice(offset, end, literal));
      ghost var prefix := guard;
      assert forall path :: p <= path ==> (Passes(prefix, path) <==> p + literal <= path);
      var next := Otherwise;
      if node.children != map[] {
        var arms := node.EmitEdges(nodes, p + literal, end);
        next := Match(end, arms);
      }
      assert forall path :: p + literal < path ==> Eval(next, path) == Lookup(nodes, path) by {
        forall path | p + literal < path ensures Eval(next, path) == Lookup(nodes, path) {
          OnlyThroughChildren(nodes, p + literal, path);
        }
      }
      match node.route {
      case None => branch := next;
      case Some(route) =>
        if node.children == map[] {
          var exact := Length(end);
          guard := Some(if guard.Some? then And(guard.value, exact) else exact);
          branch := Accept(route.1);
        } else {
          branch := If(Length(end), Accept(route.1), next);
        }
      }
      forall path {:trigger Lookup(nodes, path)} | p <= path
        ensures Lookup(nodes, path) == if Passes(guard, path) then Eval(branch, path) else Miss
      {
        var accepted := if node.route.Some? then Some(node.route.value.1) else None;
        Decides(p + literal, prefix, accepted, node.children == map[], next, path, Lookup(nodes, path));
      }
    }

    /** One arm for every child, in ascending byte order. */
    method EmitEdges(ghost nodes: map<Bytes, Table>, ghost p: Bytes, end: nat) returns (arms: seq<Arm>)
      requires Linked(nodes) && p in nodes && nodes[p] == this && end == |p|
      ensures forall path :: p < path ==> EvalArms(arms, path[end], path) == Lookup(nodes, path)
      decreases Below(nodes, |p|), 0
    {
      arms := [];
      for i := 0 to 256
        invariant forall k :: 0 <= k < |arms| ==> arms[k].tag as int < i
        invariant forall path :: p < path ==> EvalArms(arms, path[end], path) ==
                                                (if path[end] as int < i then Lookup(nodes, path) else Miss)
      {
        var b := i as byte;
        ghost var before := arms;
        if b in children {
          BelowShrinks(nodes, p + [b]);
          var guard, body := children[b].EmitAt(nodes, p + [b], end + 1);
          arms := arms + [Arm(b, guard, body)];
        }
        forall path | p < path
          ensures EvalArms(arms, path[end], path) ==
                    if path[end] as int < i + 1 then Lookup(nodes, path) else Miss
        {
          OnlyThroughChildren(nodes, p, path);
          if b in children {
            EvalArmsAppend(before, arms[|before|], path[end], path);
            assert path[end] == b ==> p + [b] <= path;
          }
        }
      }
    }

    /** The whole dispatch for the table rooted here. */
    method Emit(ghost nodes: map<Bytes, Table>) returns (code: Code)
      requires Linked(nodes) && nodes[[]] == this
      ensures forall path :: Eval(code, path) == Lookup(nodes, path)
    {
      var guard, branch := EmitAt(nodes, [], 0);
      code := if guard.Some? then If(guard.value, branch, Otherwise) else branch;
    }
  }

  /** The last method registered under `p`, with its index. */
  function Find(methods: seq<Method>, p: Bytes): (r: Option<(nat, Method)>)
    ensures r.Some? ==> r.value.0 < |methods| && r.value.1 == methods[r.value.0] && r.value.1.path == p
    ensures r.None? ==> forall m :: m in methods ==> m.path != p
  {
    if methods == [] then None
    else
      var k := |methods| - 1;
      if methods[k].path == p then Some((k, methods[k])) else Find(methods[..k], p)
  }

  ghost predicate DistinctPaths(methods: seq<Method>) {
    forall i, j :: 0 <= i < j < |methods| ==> methods[i].path != methods[j].path
  }

  lemma DistinctExtends(methods: seq<Method>, i: nat)
    requires i < |methods| && DistinctPaths(methods[..i])
    requires Find(methods[..i], methods[i].path).None?
    ensures DistinctPaths(methods[..i + 1])
  {
    forall k | 0 <= k < i ensures methods[k].path != methods[i].path {
      assert methods[k] == methods[..i][k];
    }
  }

  /** Builds the trie; stops at the first method whose path is taken. */
  method New(methods: seq<Method>) returns (r: Result<Table, (nat, nat)>, ghost nodes: map<Bytes, Table>)
    ensures r.Success? ==> Linked(nodes) && nodes[[]] == r.value && DistinctPaths(methods)
    ensures r.Success? ==> forall p :: RouteAt(nodes, p) == Find(methods, p)
    ensures r.Failure? ==>
              var (first, index) := r.error;
              && first < index < |methods| && methods[first].path == methods[index].path
              && DistinctPaths(methods[..index])
  {
    var root := new Table();
    nodes := map[[] := root];
    for i := 0 to |methods|
      invariant Linked(nodes) && nodes[[]] == root && fresh(nodes.Values)
      invariant DistinctPaths(methods[..i])
      invariant forall p :: RouteAt(nodes, p) == Find(methods[..i], p)
    {
      assert methods[..i + 1][..i] == methods[..i];
      var step;
      step, nodes := root.Insert(nodes, methods[i], i);
      if step.Failure? {
        return Failure(step.error), nodes;
      }
      DistinctExtends(methods, i);
    }
    assert methods[..|methods|] == methods;
    return Success(root), nodes;
  }

  /**
   Compiling a method list fails exactly when two paths coincide; otherwise the
   emitted code selects a method on its own path and misses on every other.
   */
  method Compile(methods: seq<Method>) returns (r: Result<Code, (nat, nat)>)
    ensures r.Success? <==> DistinctPaths(methods)
    ensures r.Success? ==> forall path, i :: 0 <= i < |methods| ==>
              (Eval(r.value, path) == Selected(methods[i]) <==> path == methods[i].path)
    ensures r.Success? ==> forall path ::
              Eval(r.value, path) == Miss <==> forall m :: m in methods ==> m.path != path
    ensures r.Failure? ==>
              var (first, index) := r.error;
              && first < index < |methods| && methods[first].path == methods[index].path
              && DistinctPaths(methods[..index])
  {
    var table, nodes := New(methods);
    if table.Failure? {
      assert methods[table.error.0].path == methods[table.error.1].path;
      return Failure(table.error);
    }
    var code := table.value.Emit(nodes);
    forall path ensures Eval(code, path) == match Find(methods, path)
                          case None => Miss
                          case Some(found) => Selected(found.1)
    {
      assert RouteAt(nodes, path) == Find(methods, path);
    }
    r := Success(code);
  }
}
