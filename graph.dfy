/** The directed graph store that the control-flow graph is built on
    (`rustc_data_structures::graph`), reduced to what the reachability
    query needs: nodes and edges kept in insertion order and addressed by
    index, the edge relation followed in the outgoing direction, and the
    depth-first traversal iterator with its stack and visited bit set.
 */
module Graph {

  datatype Option<T> = None | Some(value: T)

  /** An edge of the store: its two endpoint indices and its payload. */
  datatype Edge<E> = Edge(source: nat, target: nat, data: E)

  /** Node payloads and edges, each indexed by its insertion position. */
  datatype Graph<N, E> = Graph(nodes: seq<N>, edges: seq<Edge<E>>) {

    /** Every edge's endpoints are indices of nodes of the store. */
    predicate Valid() {
      forall j :: 0 <= j < |edges| ==> edges[j].source < |nodes| && edges[j].target < |nodes|
    }

    /** The payload of node `idx`; an out-of-range index is a programmer error. */
    function NodeData(idx: nat): (d: N)
      requires idx < |nodes|
      ensures d == nodes[idx]
    {
      nodes[idx]
    }
  }

  /** The indices below `n`. */
  function Indices(n: nat): (r: set<nat>)
    ensures forall v: nat :: v in r <==> v < n
  {
    if n == 0 then {} else Indices(n - 1) + {n - 1}
  }

  /** Some edge leads from `a` to `b` (one step in the outgoing direction). */
  predicate Step<N, E>(g: Graph<N, E>, a: nat, b: nat) {
    exists j :: 0 <= j < |g.edges| && g.edges[j].source == a && g.edges[j].target == b
  }

  /** `p` is a non-empty walk along outgoing edges. */
  ghost predicate IsPath<N, E>(g: Graph<N, E>, p: seq<nat>) {
    |p| > 0 && forall i :: 0 <= i < |p| - 1 ==> Step(g, p[i], p[i + 1])
  }

  /** `to` can be reached from `from` by following outgoing edges (zero or more of them). */
  ghost predicate Reachable<N, E>(g: Graph<N, E>, from: nat, to: nat) {
    exists p :: IsPath(g, p) && p[0] == from && p[|p| - 1] == to
  }

  /** No outgoing edge leaves the set `s`. */
  ghost predicate ClosedUnderSteps<N, E>(g: Graph<N, E>, s: set<nat>) {
    forall u, v :: u in s && Step(g, u, v) ==> v in s
  }

  lemma ReachableFromItself<N, E>(g: Graph<N, E>, s: nat)
    ensures Reachable(g, s, s)
  {
    assert IsPath(g, [s]);
  }

  lemma ReachableThenStep<N, E>(g: Graph<N, E>, s: nat, m: nat, n: nat)
    requires Reachable(g, s, m) && Step(g, m, n)
    ensures Reachable(g, s, n)
  {
    var p :| IsPath(g, p) && p[0] == s && p[|p| - 1] == m;
    var q := p + [n];
    forall i | 0 <= i < |q| - 1
      ensures Step(g, q[i], q[i + 1])
    {
      if i < |p| - 1 {
        assert q[i] == p[i] && q[i + 1] == p[i + 1];
      }
    }
    assert IsPath(g, q);
  }

  /** Reachability is a fixed point of "the start node, or one step from a
      reachable node": the inductive reading of the path definition. That it
      is the least such set is `ClosedContainsReachable`. */
  lemma ReachableUnfold<N, E>(g: Graph<N, E>, s: nat, n: nat)
    ensures Reachable(g, s, n) <==> (n == s || exists m :: Reachable(g, s, m) && Step(g, m, n))
  {
    if Reachable(g, s, n) && n != s {
      var p :| IsPath(g, p) && p[0] == s && p[|p| - 1] == n;
      var q := p[..|p| - 1];
      assert IsPath(g, q);
      assert Step(g, q[|q| - 1], n);
      assert Reachable(g, s, q[|q| - 1]);
    }
    if n == s {
      ReachableFromItself(g, s);
    } else if m :| Reachable(g, s, m) && Step(g, m, n) {
      ReachableThenStep(g, s, m, n);
    }
  }

  lemma {:induction false} PathStaysInClosedSet<N, E>(g: Graph<N, E>, p: seq<nat>, s: set<nat>)
    requires IsPath(g, p) && p[0] in s && ClosedUnderSteps(g, s)
    ensures p[|p| - 1] in s
  {
    if |p| > 1 {
      var q := p[..|p| - 1];
      assert IsPath(g, q);
      PathStaysInClosedSet(g, q, s);
      assert Step(g, p[|p| - 2], p[|p| - 1]);
    }
  }

  /** A set that holds the start node and that no outgoing edge leaves holds
      every node reachable from the start node. */
  lemma ClosedContainsReachable<N, E>(g: Graph<N, E>, start: nat, s: set<nat>, n: nat)
    requires start in s && ClosedUnderSteps(g, s)
    requires Reachable(g, start, n)
    ensures n in s
  {
    var p :| IsPath(g, p) && p[0] == start && p[|p| - 1] == n;
    PathStaysInClosedSet(g, p, s);
  }

  /** The nodes one outgoing edge away from `u`. */
  ghost function Successors<N, E>(g: Graph<N, E>, u: nat): set<nat>
  {
    set v | v in Indices(|g.nodes|) && Step(g, u, v)
  }

  /** A set that grew from `before` only by steps from `u`, and that holds the
      target of every edge leaving `u`, is `before` plus the successors of `u`. */
  lemma GrownBySuccessors<N, E>(g: Graph<N, E>, u: nat, before: set<nat>, after: set<nat>)
    requires g.Valid() && before <= after
    requires forall v :: v in after ==> v in before || Step(g, u, v)
    requires forall j :: 0 <= j < |g.edges| && g.edges[j].source == u ==> g.edges[j].target in after
    ensures after == before + Successors(g, u)
    ensures forall v :: Step(g, u, v) ==> v in after
  {
  }

  /** The depth-first traversal iterator (`depth_traverse` in the outgoing
      direction). A node is marked in the visited bit set when it is pushed,
      so it is pushed, and returned by `Next`, at most once.
   */
  class DepthFirstTraversal<N, E> {
    const graph: Graph<N, E>
    const visited: array<bool>
    var stack: seq<nat>
    // the public view
    ghost const start: nat
    ghost var marked: set<nat>    // the nodes whose visited bit is set
    ghost var emitted: seq<nat>   // the nodes returned by Next so far, in order
    ghost var unmarked: set<nat>  // the nodes of the graph not yet marked

    /** The bookkeeping that holds between and during the steps of `Next`. */
    ghost predicate Consistent()
      reads this, visited
    {
      && graph.Valid()
      && start < |graph.nodes|
      && visited.Length == |graph.nodes|
      && (forall v :: 0 <= v < visited.Length ==> (visited[v] <==> v in marked))
      && (forall v :: v in marked ==> v < |graph.nodes| && Reachable(graph, start, v))
      && (forall v: nat :: v in unmarked <==> v < |graph.nodes| && v !in marked)
      && start in marked
      && (forall v :: v in marked <==> v in emitted || v in stack)
      && (forall i, j :: 0 <= i < j < |stack| ==> stack[i] != stack[j])
      && (forall i, j :: 0 <= i < j < |emitted| ==> emitted[i] != emitted[j])
      && (forall i, j :: 0 <= i < |emitted| && 0 <= j < |stack| ==> emitted[i] != stack[j])
    }

    /** The traversal invariant: besides the bookkeeping, every successor of
        a node already returned has been marked. */
    ghost predicate Valid()
      reads this, visited
    {
      Consistent() && forall u, v :: u in emitted && Step(graph, u, v) ==> v in marked
    }

    /** Decreases with every node `Next` returns. */
    ghost function Remaining(): nat
      reads this
    {
      |unmarked| + |stack|
    }

    constructor (g: Graph<N, E>, startNode: nat)
      requires g.Valid() && startNode < |g.nodes|
      ensures Valid() && fresh(visited)
      ensures graph == g && start == startNode
      ensures stack == [startNode] && emitted == []
    {
      graph := g;
      start := startNode;
      visited := new bool[|g.nodes|](v => v == startNode);
      stack := [startNode];
      marked := {startNode};
      emitted := [];
      unmarked := Indices(|g.nodes|) - {startNode};
      new;
      ReachableFromItself(g, startNode);
    }

    /** Marks `node` and pushes it, unless it is marked already. */
    method Visit(node: nat, ghost from: nat)
      requires Consistent() && node < |graph.nodes|
      requires from in marked && Step(graph, from, node)
      modifies this, visited
      ensures Consistent()
      ensures emitted == old(emitted) && node in marked
      ensures marked == old(marked) + {node}
      ensures old(node in marked) ==> stack == old(stack)
      ensures old(node !in marked) ==> stack == old(stack) + [node]
      ensures |unmarked| + |stack| == old(|unmarked| + |stack|)
    {
      if !visited[node] {
        assert node !in marked && node in unmarked;
        assert node !in stack && node !in emitted;
        ReachableThenStep(graph, start, from, node);
        visited[node] := true;
        marked := marked + {node};
        unmarked := unmarked - {node};
        stack := stack + [node];
      }
    }

    /** Visits the target of every edge leaving `idx`, taking the edges in
        any order: the `for` loop over `adjacent_edges(idx, OUTGOING)`. */
    method PushSuccessors(idx: nat)
      requires Consistent() && idx in marked
      modifies this, visited
      ensures Consistent()
      ensures emitted == old(emitted)
      ensures marked == old(marked) + Successors(graph, idx)
      ensures forall v :: Step(graph, idx, v) ==> v in marked
      ensures |stack| >= |old(stack)| && stack[..|old(stack)|] == old(stack)
      ensures forall i :: |old(stack)| <= i < |stack| ==> stack[i] in marked - old(marked)
      ensures |unmarked| + |stack| == old(|unmarked| + |stack|)
    {
      var pending := Indices(|graph.edges|);
      while pending != {}
        invariant Consistent()
        invariant emitted == old(emitted)
        invariant old(marked) <= marked
        invariant forall j :: j in pending ==> j < |graph.edges|
        invariant forall j :: (0 <= j < |graph.edges| && j !in pending && graph.edges[j].source == idx)
                               ==> graph.edges[j].target in marked
        invariant forall v :: v in marked ==> v in old(marked) || Step(graph, idx, v)
        invariant |stack| >= |old(stack)| && stack[..|old(stack)|] == old(stack)
        invariant forall i :: |old(stack)| <= i < |stack| ==> stack[i] in marked - old(marked)
        invariant |unmarked| + |stack| == old(|unmarked| + |stack|)
        decreases pending
      {
        var j :| j in pending;
        pending := pending - {j};
        var edge := graph.edges[j];
        if edge.source == idx {
          Visit(edge.target, idx);
        }
      }
      GrownBySuccessors(graph, idx, old(marked), marked);
    }

    /** Pops the top of the stack, pushes its unmarked successors, and
        returns it; returns `None` once the stack is empty. */
    method Next() returns (next: Option<nat>)
      requires Valid()
      modifies this, visited
      ensures Valid()
      ensures next == None <==> old(stack) == []
      ensures next == None ==> emitted == old(emitted) && marked == old(marked) && stack == []
      ensures next.Some? ==> next.value < |graph.nodes| && next.value !in old(emitted) && emitted == old(emitted) + [next.value]
      ensures next.Some? ==> Remaining() < old(Remaining())
      ensures next.Some? ==> next.value == old(stack)[|old(stack)| - 1]
      ensures next.Some? ==> marked == old(marked) + Successors(graph, next.value)
      ensures next.Some? ==> |stack| >= |old(stack)| - 1 && stack[..|old(stack)| - 1] == old(stack)[..|old(stack)| - 1]
      ensures next.Some? ==> forall i :: |old(stack)| - 1 <= i < |stack| ==> stack[i] in marked - old(marked)
    {
      if stack == [] {
        return None;
      }
      var idx := stack[|stack| - 1];
      assert idx in marked;
      stack := stack[..|stack| - 1];
      emitted := emitted + [idx];
      PushSuccessors(idx);
      next := Some(idx);
    }
  }
}
