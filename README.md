# Control-flow graph reachability

This project models the control-flow graph (CFG) of one function or closure body as rustc builds it: typed node payloads, edge payloads, the graph with its entry and exit nodes, and the query `node_is_reachable`. The query asks whether a position of the body can be reached from the entry node.

- `graph.dfy`, module `Graph`: the graph store the CFG is built on (`rustc_data_structures::graph`), reduced to what the query uses.
  - Node payloads and edges `(source, target, payload)` are held in insertion order and addressed by index.
  - The outgoing step relation `Step` and path-based reachability `Reachable` are defined here.
  - `DepthFirstTraversal` is the stateful iterator behind `depth_traverse(start, OUTGOING)`. It holds a stack and a visited bit set (an `array<bool>`) and marks each node when it pushes it.
- `cfg.dfy`, module `Cfg`:
  - `CfgNodeData` has five kinds: `Ast(id)`, `Entry`, `Exit`, `Dummy` and `Unreachable`. Its `Id()` projection is modelled here.
  - `CfgEdgeData` holds the exiting scopes.
  - The `Cfg` record holds the owner, the graph, the entry node and the exit node.
  - `ReachesId` is the specification of the query: some node reachable from the entry node reports the identifier.
  - `NodeIsReachable` is `depth_traverse(entry, OUTGOING).any(|idx| node_data(idx).id() == id)`. It is a loop that calls `Next` until the stack is empty or a node matches, and it is proved equal to `ReachesId`.

`ItemLocalId` is an unbounded `nat`. `DUMMY_ITEM_LOCAL_ID` is a distinguished constant, the all-ones 32-bit value. The general lemmas hold for any value. Only `ExampleAnswers` uses it, and it needs the value only to differ from 7 and 9.

The query has no side effects. `NodeIsReachable` has no `modifies` clause, and `Cfg` is a value. The only thing it writes is the traversal object it allocates itself.

In `Next`, the outgoing edges of the popped node are taken in an order the model does not fix (`:|`). The proof therefore covers every order of sibling exploration.

A node is marked when it is pushed. `Next` never returns a node twice (each node is visited at most once). Every call that returns a node decreases `Remaining()`, so the walk ends on cyclic graphs.

Read naively, the query asks whether a node `AST(position)` is reachable. Because the code compares `id()`, that reading fails for one identifier: a query for `DUMMY_ITEM_LOCAL_ID` succeeds as soon as any synthetic node is reachable, and the entry node, which the builder creates as `Entry`, always is. The model follows the code. `AstQuery` proves that the naive reading holds for every other identifier. `DummyQuery` and `EntryIdIsReachable` state what happens for the dummy identifier.

## Model

| member | source | states |
|---|---|---|
| `Cfg.CfgNodeData.Id` | src/librustc/cfg/mod.rs:38-45 | an `Ast(x)` node reports exactly `x`; `Entry`, `Exit`, `Dummy` and `Unreachable` report `DUMMY_ITEM_LOCAL_ID` |
| `Cfg.NodeIsReachable` | src/librustc/cfg/mod.rs:67-70 | answers true iff some node reachable from `entry` along outgoing edges has `id() == id`, on any graph, cyclic or not, and for any order of sibling exploration; changes nothing that existed before the call |
| `Graph.DepthFirstTraversal.constructor` | src/librustc/cfg/mod.rs:68 | the traversal starts with only the start node on the stack and marked visited, and nothing returned yet |
| `Graph.DepthFirstTraversal.Visit` | src/librustc/cfg/mod.rs:68 | if the node's visited bit was clear, it is set and the node is pushed on top of the unchanged stack; if it was set, the stack is unchanged; a newly marked node is reachable from the start |
| `Graph.DepthFirstTraversal.Next` | src/librustc/cfg/mod.rs:68 | returns `None` exactly when the stack is empty, changing nothing; otherwise pops and returns the top of the stack, a node never returned before (each node visited at most once); the visited set grows by exactly that node's successors; the rest of the old stack stays underneath, with only newly marked nodes above it; the termination measure decreases |
| `Graph.DepthFirstTraversal.PushSuccessors` | src/librustc/cfg/mod.rs:68 | visits the target of every edge leaving the popped node, in any order: the visited set grows by exactly its successors, the stack keeps its old contents as a prefix, and only newly marked nodes are pushed |
| `Graph.Graph.NodeData` | src/librustc/cfg/mod.rs:69 | `node_data(idx)` returns the payload stored at index `idx`; an out-of-range index is excluded |
| `Graph.ReachableUnfold` | src/librustc/cfg/mod.rs:68 | reachability along outgoing edges is the start node plus closure under one more step (the inductive reading of the path definition) |
| `Graph.ClosedContainsReachable` | src/librustc/cfg/mod.rs:68 | a node set that contains the start and that no outgoing edge leaves contains every node reachable from the start; this is why an exhausted traversal has seen every reachable node |
| `Cfg.EntryIdIsReachable` | src/librustc/cfg/mod.rs:67-69 | the query for the entry node's own `id()` is true; when the entry payload is `Entry`, the query for `DUMMY_ITEM_LOCAL_ID` is true |
| `Cfg.AstQuery` | src/librustc/cfg/mod.rs:39-44 | for any identifier other than the dummy one, the query is true iff a node `Ast(x)` is reachable from the entry node |
| `Cfg.DummyQuery` | src/librustc/cfg/mod.rs:42-44 | the query for `DUMMY_ITEM_LOCAL_ID` is true iff a reachable node is synthetic or is `Ast(DUMMY_ITEM_LOCAL_ID)` |
| `Cfg.AbsentFromClosedRegion` | src/librustc/cfg/mod.rs:68-69 | if a node set contains the entry node, no outgoing edge leaves it, and none of its nodes reports `x`, then the query for `x` is false, whatever nodes outside it report |
| `Cfg.UnreachablePayloadsIrrelevant` | src/librustc/cfg/mod.rs:68-69 | two graphs with the same edges, entry and number of nodes, whose payloads agree on every node reachable from the entry, give the same answer to every query |
| `Cfg.OnlyEndpointsMatter` | src/librustc/cfg/mod.rs:22-27 | the answer does not depend on `exit`, `owner_def_id` or any edge's `exiting_scopes`; only node payloads, `entry` and edge endpoints matter |
| `Cfg.ExampleAnswers` | src/librustc/cfg/mod.rs:67-70 | in a graph `Entry -> Ast(5) -> Exit`, plus `Ast(7) -> Entry` and a disconnected `Unreachable -> Ast(9)`: the query for 5 is true, for 7 (reachable only backwards) and 9 (only from the sink) false, for the dummy identifier true |

## Left out

- `CFG::new` and the builder in `construct.rs` (src/librustc/cfg/mod.rs:62-65): construct.rs is not part of this model. The builder also depends on the type context and HIR bodies. Any `Cfg` value satisfying `Valid()` is accepted as input.
- The `graphviz` submodule (src/librustc/cfg/mod.rs:20): debug export only. It is not part of this model.
- The graph store's construction API (`add_node`, `add_edge`): the query does not use it.
- The per-node linked edge lists are replaced by one edge sequence, which `Next` filters by source. `INCOMING` is never used.
- The order in which `adjacent_edges` lists a node's edges: `Next` explores them in an unspecified order, so the model covers every order. It does not predict the exact visiting sequence.
- The visited `BitVector` is modelled as an `array<bool>` of the node count.
- `ItemLocalId` is an unbounded `nat`, not a 32-bit index. Identifiers are only compared for equality, so the width does not matter.
- `DefId` is an opaque record that is never inspected.
- The lint declarations (src/librustc/lint/builtin.rs), the crate root (src/librustc/lib.rs) and the map aliases (src/librustc/util/nodemap.rs) hold no behaviour of the query.
- Properties of finished graphs that depend on the builder are not modelled: the entry node has no incoming edges, no `Dummy` node is reachable, and exiting scopes fit the scope depth.
