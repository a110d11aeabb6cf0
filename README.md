# Pipeline cycle detection

The pipeline editor's backend decides whether a submitted pipeline is a
directed acyclic graph. A pipeline is given as a list of node ids and a list
of `(source, target)` edges. An edge that names an undeclared node is dropped
without error. The backend has three detectors:

- `is_dag_dfs` runs a three-color depth-first search: 0 = unvisited,
  1 = on the recursion stack, 2 = finished. It answers false at the first
  edge that reaches a node colored 1.
- `find_cycle_dfs` runs the same search, but each call also carries the path
  of nodes colored 1. At a back edge to node N it returns the path from N
  onwards, with N appended again.
- `is_dag_topological` is Kahn's algorithm. It counts in-degrees over the
  valid edges, seeds a worklist with the nodes of in-degree 0, and pops
  nodes, lowering their targets' in-degrees. It reports a DAG when the
  number of popped nodes equals the length of the id list.

The parse endpoint reports the node and edge counts and the depth-first
verdict. It searches for a cycle only when that verdict is negative.

The model has three modules.

- `Graphs` (graphs.dfy) holds the graph vocabulary.
  - `Successors` and `Adjacency` give the adjacency view the source builds.
  - `IsEdge`, `IsWalk`, `IsCycle` and `HasCycle` give a reference notion of
    a directed cycle: a closed walk of length at least 2 along edges whose
    endpoints are both declared. Every detector is proved against it.
  - `IsSimpleCycle` adds that no node repeats before the closing entry.
    Every cycle the search returns has this shape.
- `DagUtils` (dag_utils.dfy) holds the two depth-first searches.
  - They are recursive methods over the color map.
  - Their proof invariants are `Finished` (finished nodes have only finished
    neighbours, finished earlier), `GrayStack` (the nodes colored 1 are
    exactly the current path) and `Advanced` (colors only move
    0 → 1 → 2).
  - The path is a walk. In `find_cycle_dfs` it also repeats no node
    (`Unrepeated`), because only nodes colored 0 are pushed.
  - Completeness uses finishing times as a ranking that decreases along
    every edge.
- `Pipeline` (pipeline.dfy) holds Kahn's algorithm and the parse
  endpoint's decision.
  - In-degrees are specified by `PendingIn`: the number of valid edges into
    a node whose source has not been popped yet.
  - When the worklist runs dry, either the popping order ranks the graph, or
    the nodes never popped each keep a predecessor among themselves. A
    pigeonhole argument then yields a cycle.

Repeated node ids are handled as the code handles them, with no
precondition excluding them. The dictionaries collapse repeated ids, but
`len(node_ids)` counts every repetition. So `IsDagTopological` is proved
true exactly when the ids are distinct and the graph has no cycle, while
`IsDagDfs` is proved true exactly when the graph has no cycle. For distinct
ids the two verdicts agree. Nothing in the code checks that ids are
unique, and the model follows the code.

## Model

| member | source | states |
|---|---|---|
| Graphs.SuccessorsAreEdges | OneDrive/Desktop/frontend_technical_assessment/backend/dag_utils.py:23-26 | a target is in a node's neighbour list iff that edge was supplied and both its endpoints are declared |
| Graphs.AdjacencyIsEdgeRelation | OneDrive/Desktop/frontend_technical_assessment/backend/dag_utils.py:23-26 | the adjacency view has exactly the declared nodes as keys; its entries are exactly the graph's edges, so it never names an undeclared node |
| Graphs.AdjacencyStep | OneDrive/Desktop/frontend_technical_assessment/backend/dag_utils.py:24-26 | one more supplied edge appends its target to its source's list when both endpoints are declared, and otherwise leaves the view unchanged |
| Graphs.SuccessorsAppend | OneDrive/Desktop/frontend_technical_assessment/backend/dag_utils.py:24-26 | neighbour lists keep the order in which the edges were supplied |
| Graphs.DanglingEdgeIgnored | OneDrive/Desktop/frontend_technical_assessment/backend/dag_utils.py:25 | an edge with an undeclared endpoint changes neither the adjacency view nor whether the graph has a cycle |
| Graphs.ClosingWalk | OneDrive/Desktop/frontend_technical_assessment/backend/dag_utils.py:88-89 | on a walk, a back edge from the last node to position k makes the suffix from k, with that node repeated, a cycle, and a simple one when the walk repeats no node |
| DagUtils.BuildAdjacency | OneDrive/Desktop/frontend_technical_assessment/backend/dag_utils.py:23-26 | the loop builds exactly the adjacency view (the same code appears again at lines 68-71) |
| DagUtils.IndexOf | OneDrive/Desktop/frontend_technical_assessment/backend/dag_utils.py:88 | `path.index`: an in-range position holding the node, with no earlier occurrence |
| DagUtils.FewerWhites | OneDrive/Desktop/frontend_technical_assessment/backend/dag_utils.py:42-43 | a search is entered only on a node colored 0 and colors that node, so fewer nodes stay 0: the recursion terminates |
| DagUtils.EnterKeeps | OneDrive/Desktop/frontend_technical_assessment/backend/dag_utils.py:37 | coloring the entered node 1 keeps the invariants, pushes the node (not yet on the path) on the path of nodes colored 1, which stays a walk, and only advances colors |
| DagUtils.EnterUnrepeated | OneDrive/Desktop/frontend_technical_assessment/backend/dag_utils.py:83-84 | the node appended to the path is colored 0, so the path still repeats no node |
| DagUtils.UnrepeatedDistinct | OneDrive/Desktop/frontend_technical_assessment/backend/dag_utils.py:84 | a path built by appending nodes not yet on it has no two equal entries |
| DagUtils.FinishKeeps | OneDrive/Desktop/frontend_technical_assessment/backend/dag_utils.py:46 | coloring a node 2 once all its neighbours are finished keeps the invariants, pops it off the path and only advances colors |
| DagUtils.ChildDone | OneDrive/Desktop/frontend_technical_assessment/backend/dag_utils.py:42-44 | after a child search without a cycle, colors have only advanced and every neighbour examined so far is finished |
| DagUtils.BackEdgeCloses | OneDrive/Desktop/frontend_technical_assessment/backend/dag_utils.py:40-41 | meeting a neighbour colored 1 means the graph has a cycle, so answering false is sound |
| DagUtils.NoCycleWhenAllFinished | OneDrive/Desktop/frontend_technical_assessment/backend/dag_utils.py:49-54 | once every node is finished without a back edge, finishing times rank the graph and it has no cycle |
| DagUtils.StartState | OneDrive/Desktop/frontend_technical_assessment/backend/dag_utils.py:23-28 | the all-0 coloring over the built view satisfies the search invariants with an empty path |
| DagUtils.CycleThrough | OneDrive/Desktop/frontend_technical_assessment/backend/dag_utils.py:88-89 | the slice from the first occurrence of the back edge's target, closed by that target, is a cycle that starts at the target and repeats no node before its closing entry |
| DagUtils.Dfs | OneDrive/Desktop/frontend_technical_assessment/backend/dag_utils.py:30-47 | false only when the graph has a cycle; on true the node is colored 2, colors only advanced and the invariants hold again |
| DagUtils.FindFrom | OneDrive/Desktop/frontend_technical_assessment/backend/dag_utils.py:76-96 | any returned sequence is a cycle of the graph that repeats no node before its closing entry; on None the node is colored 2, colors only advanced and the invariants hold again |
| DagUtils.IsDagDfs | OneDrive/Desktop/frontend_technical_assessment/backend/dag_utils.py:6-54 | true iff the graph of valid edges has no directed cycle, self-loops included |
| DagUtils.FindCycleDfs | OneDrive/Desktop/frontend_technical_assessment/backend/dag_utils.py:57-104 | None iff the graph has no cycle; a returned list has length at least 2, starts and ends on the same node, follows valid edges and repeats no node before its closing entry |
| Pipeline.PendingZeroIff | OneDrive/Desktop/frontend_technical_assessment/backend/main.py:54-55 | a node's remaining in-degree is 0 iff every predecessor has been popped |
| Pipeline.PendingSplit | OneDrive/Desktop/frontend_technical_assessment/backend/main.py:52-53 | popping a node lowers each remaining in-degree by the number of that node's edges to it |
| Pipeline.InDegreesStep | OneDrive/Desktop/frontend_technical_assessment/backend/main.py:41-44 | one more supplied edge raises its target's in-degree when both endpoints are declared, and changes nothing otherwise |
| Pipeline.CountInDegrees | OneDrive/Desktop/frontend_technical_assessment/backend/main.py:38-44 | after setup, the adjacency is the view of the valid edges and each declared node's count is its number of incoming valid edges |
| Pipeline.FirstOccurrences | OneDrive/Desktop/frontend_technical_assessment/backend/main.py:39 | the dictionary's keys are distinct and are exactly the ids supplied |
| Pipeline.ZeroInDegree | OneDrive/Desktop/frontend_technical_assessment/backend/main.py:46 | the initial worklist holds exactly the keys of in-degree 0, each once |
| Pipeline.StartKahn | OneDrive/Desktop/frontend_technical_assessment/backend/main.py:38-46 | before the loop, the counts, the worklist and the (empty) popping order satisfy the loop invariants |
| Pipeline.PopKeepsWorklist | OneDrive/Desktop/frontend_technical_assessment/backend/main.py:50 | the popped node is a declared node not popped before, with in-degree 0, and the rest of the worklist is a worklist for the nodes still unpopped |
| Pipeline.PopKeepsOrder | OneDrive/Desktop/frontend_technical_assessment/backend/main.py:50-51 | a node popped at in-degree 0 comes after all its predecessors and has no edge to itself or to an earlier popped node |
| Pipeline.QueueAppend | OneDrive/Desktop/frontend_technical_assessment/backend/main.py:54-55 | appending a node not yet queued or popped keeps every node on the worklist at most once |
| Pipeline.ReleaseOne | OneDrive/Desktop/frontend_technical_assessment/backend/main.py:53-55 | a target's count is positive before it is lowered (counts never go negative), and the target is appended exactly when its count reaches 0 |
| Pipeline.Release | OneDrive/Desktop/frontend_technical_assessment/backend/main.py:52-55 | after the targets of the popped node are processed, the counts are the in-degrees from unpopped nodes and the worklist holds exactly the unpopped nodes of in-degree 0 |
| Pipeline.StuckUnsourced | OneDrive/Desktop/frontend_technical_assessment/backend/main.py:49 | when the worklist runs dry, every unpopped node has an unpopped predecessor |
| Pipeline.DistinctCount | OneDrive/Desktop/frontend_technical_assessment/backend/main.py:57 | the id list is at least as long as its set of ids, and exactly as long iff no id repeats |
| Pipeline.Verdict | OneDrive/Desktop/frontend_technical_assessment/backend/main.py:57 | at loop exit, the number of pops equals the length of the id list iff the ids are distinct and the graph has no cycle |
| Pipeline.IsDagTopological | OneDrive/Desktop/frontend_technical_assessment/backend/main.py:36-57 | true iff the ids are distinct and the graph of valid edges has no cycle; the loop pops each node at most once, so it terminates |
| Pipeline.ParsePipeline | OneDrive/Desktop/frontend_technical_assessment/backend/main.py:62-71 | counts are the lengths of the two lists; the verdict is true iff there is no cycle; a cycle is reported iff the verdict is false, and is then a cycle that repeats no node before its closing entry |
| Pipeline.VerdictsAgree | OneDrive/Desktop/frontend_technical_assessment/backend/main.py:36-57 | on distinct ids, `is_dag_topological` and `is_dag_dfs` return the same verdict |
| Pipeline.SelfLoopHasCycle | OneDrive/Desktop/frontend_technical_assessment/backend/dag_utils.py:87-89 | a self-loop on A is a cycle, witnessed by `[A, A]` |
| Pipeline.SelfLoopCycle | OneDrive/Desktop/frontend_technical_assessment/backend/dag_utils.py:87-89 | for a self-loop on A, the only cycle the search can return is `[A, A]` |
| Pipeline.TwoNodeCycle | OneDrive/Desktop/frontend_technical_assessment/backend/dag_utils.py:87-89 | for edges A→B and B→A, the search returns `[A, B, A]` or `[B, A, B]` |
| Pipeline.EmptyGraphAcyclic | OneDrive/Desktop/frontend_technical_assessment/backend/dag_utils.py:49-54 | with no nodes declared there is no cycle whatever the edges, so the depth-first verdict is true and no cycle is returned |
| Pipeline.ThreeNodeRing | OneDrive/Desktop/frontend_technical_assessment/backend/dag_utils.py:87-89 | the ring A→B→C→A has the simple cycle `[A, B, C, A]` |
| Pipeline.RingCycle | OneDrive/Desktop/frontend_technical_assessment/backend/dag_utils.py:87-89 | every simple cycle of the ring A→B→C→A is one of its three rotations `[A, B, C, A]`, `[B, C, A, B]`, `[C, A, B, C]` |
| Pipeline.SingleEdgeAcyclic | OneDrive/Desktop/frontend_technical_assessment/backend/dag_utils.py:49-54 | one edge between two declared nodes makes no cycle |
| Pipeline.ChainAcyclic | OneDrive/Desktop/frontend_technical_assessment/backend/dag_utils.py:49-54 | the chain A→B→C has no cycle |
| Pipeline.RepeatedIdAcyclic | OneDrive/Desktop/frontend_technical_assessment/backend/main.py:57 | the id list `[A, A]` is not distinct although its graph has no cycle, so the elimination verdict is false there while the depth-first verdict is true |

## Left out

- The HTTP layer is not modelled: the FastAPI app, the CORS middleware, `read_root`, the route decorators, the pydantic payload classes and the JSON response (main.py:1-33, 60, 73-78). A node is its id string, and an edge, a tuple or a `PipelineEdge`, is the datatype `Edge`.
- The `parent` dictionary of `find_cycle_dfs` is not modelled. It is initialised and never read.
- The color dictionary that the nested `dfs` closures share and mutate is modelled as a map. Each search is passed the map and hands back the updated one. Once a search reports a cycle, the model says nothing more about the colors, because the caller returns at once and never reads them again.
- `path.copy()` in `find_cycle_dfs` gives each call its own list, so the path is passed by value. `path.append(node)` is the local `walk := path + [node]`.
- Python's truth test on the returned cycle (`if result:`) is modelled as `Some?`. This is faithful because every returned cycle has at least two entries.
- The inner `for` loop of `is_dag_topological` (main.py:52-55) is the separate method `Pipeline.Release`, called once per popped node.
- Which cycle `find_cycle_dfs` returns when there are several, and the LIFO order of `queue.pop()`, are not stated beyond "some cycle" and "some popping order". Both depend on the iteration order.
- Python's recursion-depth limit is not modelled. The recursive searches are unbounded.
