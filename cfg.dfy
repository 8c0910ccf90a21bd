/** The control-flow graph of one function or closure body: its node and
    edge payloads, the graph value with its entry and exit nodes, and the
    query asking whether a position of the body can be reached from the
    entry node.
 */
module Cfg {
  import opened Graph

  /** The per-body local identifier of an expression, statement or scope. */
  type ItemLocalId = nat

  /** The identifier reported by nodes that stand for no position of the
      body: the all-ones 32-bit value. The general lemmas hold for any value;
      `ExampleAnswers` needs it only to differ from 7 and 9. */
  const DUMMY_ITEM_LOCAL_ID: ItemLocalId := 0xFFFF_FFFF

  /** The definition the graph was built for; carried, never inspected. */
  datatype DefId = DefId(krate: nat, index: nat)

  /** The payload of a node: a position of the body, or one of the four
      synthetic kinds. */
  datatype CfgNodeData = Ast(local: ItemLocalId) | Entry | Exit | Dummy | Unreachable {

    /** The position this node stands for; the dummy identifier when it
        stands for none. */
    function Id(): (r: ItemLocalId)
      ensures Ast? ==> r == local
      ensures !Ast? ==> r == DUMMY_ITEM_LOCAL_ID
    {
      if Ast? then local else DUMMY_ITEM_LOCAL_ID
    }
  }

  /** The payload of an edge: the scopes left when control takes it,
      innermost first. */
  datatype CfgEdgeData = CfgEdgeData(exitingScopes: seq<ItemLocalId>)

  type CfgIndex = nat

  type CfgGraph = Graph<CfgNodeData, CfgEdgeData>

  /** A control-flow graph, built once and never changed afterwards. */
  datatype Cfg = Cfg(ownerDefId: DefId, graph: CfgGraph, entry: CfgIndex, exit: CfgIndex) {

    /** The graph is well formed and the entry and exit nodes are nodes of it. */
    predicate Valid() {
      graph.Valid() && entry < |graph.nodes| && exit < |graph.nodes|
    }
  }

  /** Some node reachable from the entry node along outgoing edges reports `id`. */
  ghost predicate ReachesId(cfg: Cfg, id: ItemLocalId) {
    exists n: nat :: n < |cfg.graph.nodes| && Reachable(cfg.graph, cfg.entry, n) && cfg.graph.nodes[n].Id() == id
  }

  /** Walks the graph depth-first from the entry node and answers true as soon
      as a visited node reports `id`. Only the traversal object is written:
      `cfg` is a value, and nothing that existed before the call is modified. */
  method NodeIsReachable(cfg: Cfg, id: ItemLocalId) returns (b: bool)
    requires cfg.Valid()
    ensures b <==> ReachesId(cfg, id)
  {
    var traversal := new DepthFirstTraversal(cfg.graph, cfg.entry);
    while true
      invariant fresh(traversal) && fresh(traversal.visited)
      invariant traversal.Valid()
      invariant traversal.graph == cfg.graph && traversal.start == cfg.entry
      invariant forall v :: v in traversal.emitted ==> v < |cfg.graph.nodes| && cfg.graph.nodes[v].Id() != id
      decreases traversal.Remaining()
    {
      var next := traversal.Next();
      match next
      case None =>
        forall n: nat | n < |cfg.graph.nodes| && Reachable(cfg.graph, cfg.entry, n)
          ensures cfg.graph.nodes[n].Id() != id
        {
          ClosedContainsReachable(cfg.graph, cfg.entry, traversal.marked, n);
        }
        return false;
      case Some(idx) =>
        if cfg.graph.NodeData(idx).Id() == id {
          return true;
        }
    }
  }

  /** The entry node is visited first, so the query for its own identifier
      answers true; with an `Entry` payload that is the dummy identifier. */
  lemma EntryIdIsReachable(cfg: Cfg)
    requires cfg.Valid()
    ensures ReachesId(cfg, cfg.graph.nodes[cfg.entry].Id())
    ensures cfg.graph.nodes[cfg.entry] == Entry ==> ReachesId(cfg, DUMMY_ITEM_LOCAL_ID)
  {
    ReachableFromItself(cfg.graph, cfg.entry);
  }

  /** For an identifier other than the dummy one, the query answers whether
      a node for that very position is reachable. */
  lemma AstQuery(cfg: Cfg, x: ItemLocalId)
    requires x != DUMMY_ITEM_LOCAL_ID
    ensures ReachesId(cfg, x) <==>
            exists n: nat :: n < |cfg.graph.nodes| && Reachable(cfg.graph, cfg.entry, n) && cfg.graph.nodes[n] == Ast(x)
  {
  }

  /** The query for the dummy identifier answers whether any synthetic node
      (or a position numbered like the dummy) is reachable. */
  lemma DummyQuery(cfg: Cfg)
    ensures ReachesId(cfg, DUMMY_ITEM_LOCAL_ID) <==>
            exists n: nat :: n < |cfg.graph.nodes| && Reachable(cfg.graph, cfg.entry, n) &&
                        (!cfg.graph.nodes[n].Ast? || cfg.graph.nodes[n] == Ast(DUMMY_ITEM_LOCAL_ID))
  {
  }

  /** A region that holds the entry node and that no outgoing edge leaves
      decides the query: an identifier reported by no node of the region
      gets the answer false, whatever the nodes outside it report. */
  lemma AbsentFromClosedRegion(cfg: Cfg, region: set<nat>, x: ItemLocalId)
    requires cfg.entry in region && ClosedUnderSteps(cfg.graph, region)
    requires forall n :: n in region && n < |cfg.graph.nodes| ==> cfg.graph.nodes[n].Id() != x
    ensures !ReachesId(cfg, x)
  {
    forall n: nat | n < |cfg.graph.nodes| && Reachable(cfg.graph, cfg.entry, n)
      ensures cfg.graph.nodes[n].Id() != x
    {
      ClosedContainsReachable(cfg.graph, cfg.entry, region, n);
    }
  }

  /** Changing the payloads of nodes that cannot be reached from the entry
      node does not change any answer. */
  lemma UnreachablePayloadsIrrelevant(c1: Cfg, c2: Cfg, x: ItemLocalId)
    requires c1.entry == c2.entry && c1.graph.edges == c2.graph.edges
    requires |c1.graph.nodes| == |c2.graph.nodes|
    requires forall n: nat :: n < |c1.graph.nodes| && Reachable(c1.graph, c1.entry, n) ==> c1.graph.nodes[n] == c2.graph.nodes[n]
    ensures ReachesId(c1, x) <==> ReachesId(c2, x)
  {
  }

  /** The answer depends only on the node payloads, the entry node and the
      endpoints of the edges: not on the exit node, the owner, or the scopes
      an edge leaves. */
  lemma OnlyEndpointsMatter(c1: Cfg, c2: Cfg, x: ItemLocalId)
    requires c1.entry == c2.entry && c1.graph.nodes == c2.graph.nodes
    requires |c1.graph.edges| == |c2.graph.edges|
    requires forall j :: 0 <= j < |c1.graph.edges| ==>
               c1.graph.edges[j].source == c2.graph.edges[j].source && c1.graph.edges[j].target == c2.graph.edges[j].target
    ensures ReachesId(c1, x) <==> ReachesId(c2, x)
  {
  }

  /** A small graph: entry -> AST(5) -> exit, a node AST(7) whose only edge
      leads into the entry node, and an `Unreachable` sink with AST(9)
      hanging off it. */
  function ExampleCfg(): (cfg: Cfg)
    ensures cfg.Valid()
  {
    Cfg(DefId(0, 0),
        Graph([Entry, Exit, Ast(5), Ast(7), Unreachable, Ast(9)],
              [Edge(0, 2, CfgEdgeData([])), Edge(2, 1, CfgEdgeData([])),
               Edge(3, 0, CfgEdgeData([])), Edge(4, 5, CfgEdgeData([]))]),
        0, 1)
  }

  /** In the example, a position after the entry node is reachable, while a
      position reachable only backwards, or only from the disconnected sink,
      is not. */
  lemma ExampleAnswers()
    ensures ReachesId(ExampleCfg(), 5)
    ensures !ReachesId(ExampleCfg(), 7)
    ensures !ReachesId(ExampleCfg(), 9)
    ensures ReachesId(ExampleCfg(), DUMMY_ITEM_LOCAL_ID)
  {
    var cfg := ExampleCfg();
    var g := cfg.graph;
    ReachableFromItself(g, 0);
    assert g.edges[0] == Edge(0, 2, CfgEdgeData([]));
    assert Step(g, 0, 2);
    ReachableThenStep(g, 0, 0, 2);
    var region := {0, 1, 2};
    forall u, v | u in region && Step(g, u, v) ensures v in region {
      var j :| 0 <= j < |g.edges| && g.edges[j].source == u && g.edges[j].target == v;
    }
    AbsentFromClosedRegion(cfg, region, 7);
    AbsentFromClosedRegion(cfg, region, 9);
  }
}
