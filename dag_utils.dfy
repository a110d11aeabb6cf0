/**
 * Cycle detection by three-color depth-first search: `is_dag_dfs`, which
 * only answers whether the pipeline graph is acyclic, and `find_cycle_dfs`,
 * which carries the current path and returns the cycle closed by the first
 * back edge it meets.
 */
module DagUtils {
  import opened Graphs

  /** The search colors, with the integer codes the search stores:
      0 = unvisited, 1 = on the current recursion stack, 2 = finished. */
  datatype Color = White | Gray | Black {
    function Code(): int {
      match this
      case White => 0
      case Gray => 1
      case Black => 2
    }

    /** The order in which a node's color may move. */
    predicate NoLaterThan(other: Color)
      ensures NoLaterThan(other) <==> Code() <= other.Code()
    {
      this == other || this == White || other == Black
    }
  }

  /** Colors only move forward (0 -> 1 -> 2), over an unchanged set of nodes. */
  ghost predicate Advanced(before: map<NodeId, Color>, after: map<NodeId, Color>) {
    before.Keys == after.Keys &&
    forall n :: n in before ==> before[n].NoLaterThan(after[n])
  }

  /** Builds the adjacency view: one list per declared node, and each edge
      whose endpoints are both declared appended to its source's list. */
  method BuildAdjacency(nodes: seq<NodeId>, edges: seq<Edge>) returns (adjacency: map<NodeId, seq<NodeId>>)
    ensures adjacency == Adjacency(nodes, edges)
  {
    adjacency := map u | u in nodes :: [];
    assert adjacency == Adjacency(nodes, edges[..0]);
    for i := 0 to |edges|
      invariant adjacency == Adjacency(nodes, edges[..i])
    {
      var e := edges[i];
      assert e.source in adjacency && e.target in adjacency <==> e.source in nodes && e.target in nodes;
      if e.source in adjacency && e.target in adjacency {
        adjacency := adjacency[e.source := adjacency[e.source] + [e.target]];
      }
      assert adjacency == Adjacency(nodes, edges[..i + 1]) by {
        AdjacencyStep(nodes, edges, i);
      }
    }
    assert edges[..|edges|] == edges;
  }

  /** Position of the first occurrence of `x` in `s`, as `list.index` gives it. */
  function IndexOf(s: seq<NodeId>, x: NodeId): (k: nat)
    requires x in s
    ensures k < |s| && s[k] == x && x !in s[..k]
  {
    if s[0] == x then 0
    else
      var k := 1 + IndexOf(s[1..], x);
      assert s[..k] == [s[0]] + s[1..][..k - 1];
      k
  }

  /** The nodes still colored 0. */
  function Whites(color: map<NodeId, Color>): set<NodeId> {
    set n | n in color && color[n] == White
  }

  /** An advance that moves `node` off color 0 leaves fewer nodes colored
      0: the measure by which the recursive search terminates. */
  lemma FewerWhites(before: map<NodeId, Color>, after: map<NodeId, Color>, node: NodeId)
    requires Advanced(before, after) && node in before && before[node] == White && after[node] != White
    ensures |Whites(after)| < |Whites(before)|
  {
    forall n | n in after && after[n] == White ensures before[n] == White {
      assert before[n].NoLaterThan(after[n]);
    }
    SubsetWithoutIsSmaller(Whites(after), Whites(before), node);
  }

  lemma AdvancedTransitive(a: map<NodeId, Color>, b: map<NodeId, Color>, c: map<NodeId, Color>)
    requires Advanced(a, b) && Advanced(b, c)
    ensures Advanced(a, c)
  {
    forall n | n in a ensures a[n].NoLaterThan(c[n]) {
      assert a[n].NoLaterThan(b[n]) && b[n].NoLaterThan(c[n]);
    }
  }

  /** `Distinct`, unfolded from the end: the form in which the search
      pushes onto and pops off its path of nodes colored 1. It is kept
      beside `Distinct` because each push unfolds it by one step, whereas
      the quantified form makes every fact about the path costly to prove
      inside the search loop. */
  predicate Unrepeated(s: seq<NodeId>)
    decreases |s|
  {
    s == [] || (s[|s| - 1] !in s[..|s| - 1] && Unrepeated(s[..|s| - 1]))
  }

  lemma {:induction false} UnrepeatedDistinct(s: seq<NodeId>)
    requires Unrepeated(s)
    ensures Distinct(s)
    decreases |s|
  {
    if s != [] {
      var init := s[..|s| - 1];
      UnrepeatedDistinct(init);
      forall i, j | 0 <= i < j < |s| ensures s[i] != s[j] {
        if j < |s| - 1 {
          assert s[i] == init[i] && s[j] == init[j];
        } else {
          assert s[i] == init[i];
        }
      }
    }
  }

  /** What the search uses of the adjacency view: one list per declared
      node, holding exactly that node's edges. */
  ghost predicate Shaped(nodes: seq<NodeId>, edges: seq<Edge>, adjacency: map<NodeId, seq<NodeId>>) {
    && (forall u :: u in adjacency <==> u in nodes)
    && (forall u, v {:trigger v in adjacency[u]} :: u in adjacency && v in adjacency[u] ==> v in adjacency)
    && (forall u, v {:trigger v in adjacency[u]} {:trigger IsEdge(nodes, edges, u, v)} :: u in nodes ==>
          (v in adjacency[u] <==> IsEdge(nodes, edges, u, v)))
  }

  /** The search invariant: every declared node has a color, every finished
      node has a finishing time before `clock`, and a finished node has only
      finished neighbours, each finished strictly earlier. */
  ghost predicate Finished(adjacency: map<NodeId, seq<NodeId>>, color: map<NodeId, Color>,
                           finish: map<NodeId, int>, clock: int) {
    && color.Keys == adjacency.Keys
    && (forall u :: u in color && color[u] == Black ==> u in finish && finish[u] < clock)
    && (forall u, v {:trigger v in adjacency[u]} :: u in adjacency && u in color && color[u] == Black && v in adjacency[u] ==>
          v in color && color[v] == Black && v in finish && u in finish && finish[v] < finish[u])
  }

  /** The nodes colored 1 are exactly those of `stack`. */
  ghost predicate GrayStack(color: map<NodeId, Color>, stack: seq<NodeId>) {
    && (forall i :: 0 <= i < |stack| ==> stack[i] in color && color[stack[i]] == Gray)
    && (forall n :: n in color && color[n] == Gray ==> n in stack)
  }

  /** Coloring a node 1 as its search begins keeps the invariant and pushes
      the node on the path of nodes colored 1, which stays a walk. */
  lemma EnterKeeps(nodes: seq<NodeId>, edges: seq<Edge>, adjacency: map<NodeId, seq<NodeId>>,
                   color: map<NodeId, Color>, finish: map<NodeId, int>, clock: int,
                   stack: seq<NodeId>, node: NodeId)
    requires Finished(adjacency, color, finish, clock) && GrayStack(color, stack)
    requires IsWalk(nodes, edges, stack)
    requires node in color && color[node] == White
    requires stack != [] ==> IsEdge(nodes, edges, stack[|stack| - 1], node)
    ensures node !in stack && IsWalk(nodes, edges, stack + [node])
    ensures Finished(adjacency, color[node := Gray], finish, clock)
    ensures GrayStack(color[node := Gray], stack + [node])
    ensures Advanced(color, color[node := Gray])
  {
    var path := stack + [node];
    forall i | 0 <= i < |path| - 1 ensures IsEdge(nodes, edges, path[i], path[i + 1]) {
      if i < |path| - 2 { assert path[i] == stack[i] && path[i + 1] == stack[i + 1]; }
    }
  }

  /** The node entered is colored 0, so it is not yet on the path, and the
      path stays free of repetitions. */
  lemma EnterUnrepeated(color: map<NodeId, Color>, stack: seq<NodeId>, node: NodeId)
    requires GrayStack(color, stack) && Unrepeated(stack)
    requires node in color && color[node] == White
    ensures Unrepeated(stack + [node])
  {
    var path := stack + [node];
    assert node !in stack;
    assert path[|path| - 1] == node && path[..|path| - 1] == stack;
  }

  /** Coloring a node 2 once all its neighbours are finished keeps the
      invariant, records the node's finishing time and pops it off the stack. */
  lemma FinishKeeps(adjacency: map<NodeId, seq<NodeId>>,
                    color: map<NodeId, Color>, finish: map<NodeId, int>, clock: int,
                    stack: seq<NodeId>, node: NodeId)
    requires Finished(adjacency, color, finish, clock) && GrayStack(color, stack + [node])
    requires node !in stack && node in adjacency
    requires forall v :: v in adjacency[node] ==> v in color && color[v] == Black
    ensures Finished(adjacency, color[node := Black], finish[node := clock], clock + 1)
    ensures GrayStack(color[node := Black], stack)
    ensures Advanced(color, color[node := Black])
  {
    var path := stack + [node];
    assert color[node] == Gray by { assert path[|stack|] == node; }
    forall i | 0 <= i < |stack| ensures stack[i] in color && color[stack[i]] == Gray {
      assert path[i] == stack[i];
    }
    forall n | n in color && color[node := Black][n] == Gray ensures n in stack {
      assert n in path;
    }
  }

  /** Every node of `s` is finished. */
  ghost predicate AllBlack(color: map<NodeId, Color>, s: seq<NodeId>) {
    forall v :: v in s ==> v in color && color[v] == Black
  }

  /** One more finished node extends a finished prefix. */
  lemma {:induction false} AllBlackPrefix(color: map<NodeId, Color>, s: seq<NodeId>, i: nat)
    requires i < |s| && AllBlack(color, s[..i])
    requires s[i] in color && color[s[i]] == Black
    ensures AllBlack(color, s[..i + 1])
  {
    assert s[..i + 1] == s[..i] + [s[i]];
  }

  /** Finished nodes stay finished as the colors advance. */
  lemma AllBlackAdvanced(before: map<NodeId, Color>, after: map<NodeId, Color>, s: seq<NodeId>)
    requires AllBlack(before, s) && Advanced(before, after)
    ensures AllBlack(after, s)
  {
    forall v | v in s ensures v in after && after[v] == Black {
      assert before[v].NoLaterThan(after[v]);
    }
  }

  /** After a child search returns without a cycle, the colors have
      advanced from where this search began, and the neighbours examined so
      far, the child included, are finished. */
  lemma ChildDone(color0: map<NodeId, Color>, color: map<NodeId, Color>, after: map<NodeId, Color>,
                  neighbors: seq<NodeId>, i: nat)
    requires i < |neighbors| && Advanced(color0, color) && Advanced(color, after)
    requires AllBlack(color, neighbors[..i]) && neighbors[i] in after && after[neighbors[i]] == Black
    ensures Advanced(color0, after) && AllBlack(after, neighbors[..i + 1])
  {
    AdvancedTransitive(color0, color, after);
    AllBlackAdvanced(color, after, neighbors[..i]);
    AllBlackPrefix(after, neighbors, i);
  }

  /** A neighbour of the last node of the stack that is itself on the stack
      closes a cycle. */
  lemma BackEdgeCloses(nodes: seq<NodeId>, edges: seq<Edge>, stack: seq<NodeId>, v: NodeId)
    requires IsWalk(nodes, edges, stack) && v in stack
    requires IsEdge(nodes, edges, stack[|stack| - 1], v)
    ensures HasCycle(nodes, edges)
  {
    var k :| 0 <= k < |stack| && stack[k] == v;
    ClosingWalk(nodes, edges, stack, k);
  }

  /** Once every declared node is finished, finishing times rank the graph,
      so it has no cycle. */
  lemma NoCycleWhenAllFinished(nodes: seq<NodeId>, edges: seq<Edge>, adjacency: map<NodeId, seq<NodeId>>,
                               color: map<NodeId, Color>, finish: map<NodeId, int>, clock: int)
    requires Shaped(nodes, edges, adjacency) && Finished(adjacency, color, finish, clock)
    requires forall n :: n in color ==> color[n] == Black
    ensures !HasCycle(nodes, edges)
  {
    forall u, v | IsEdge(nodes, edges, u, v)
      ensures u in finish && v in finish && finish[v] < finish[u]
    {
      assert v in adjacency[u];
    }
    NoCycleWhenRanked(nodes, edges, finish);
  }

  /** The cycle reported at a back edge from the end of the path to
      `target`: the path from the first occurrence of `target` on, closed by
      `target` again. */
  function CycleThrough(ghost nodes: seq<NodeId>, ghost edges: seq<Edge>, path: seq<NodeId>, target: NodeId): (cycle: seq<NodeId>)
    requires IsWalk(nodes, edges, path) && Unrepeated(path) && target in path
    requires IsEdge(nodes, edges, path[|path| - 1], target)
    ensures IsSimpleCycle(nodes, edges, cycle) && cycle[0] == target
  {
    var start := IndexOf(path, target);
    UnrepeatedDistinct(path);
    ClosingWalk(nodes, edges, path, start);
    path[start..] + [target]
  }

  /** The inner search of `is_dag_dfs`, started on a node colored 0. The
      color map shared by all searches of one call is passed in and handed
      back updated; `stack` (ghost) is the path of nodes colored 1 above
      this call, and `finish`/`clock` (ghost) record finishing times. The
      search answers false exactly when it meets a neighbour colored 1. */
  method Dfs(ghost nodes: seq<NodeId>, ghost edges: seq<Edge>, adjacency: map<NodeId, seq<NodeId>>,
             color0: map<NodeId, Color>, node: NodeId,
             ghost stack: seq<NodeId>, ghost finish0: map<NodeId, int>, ghost clock0: int)
    returns (acyclic: bool, color: map<NodeId, Color>, ghost finish: map<NodeId, int>, ghost clock: int)
    requires Shaped(nodes, edges, adjacency)
    requires Finished(adjacency, color0, finish0, clock0) && GrayStack(color0, stack)
    requires IsWalk(nodes, edges, stack)
    requires node in color0 && color0[node] == White
    requires stack != [] ==> IsEdge(nodes, edges, stack[|stack| - 1], node)
    decreases |Whites(color0)|
    ensures acyclic ==> Finished(adjacency, color, finish, clock) && GrayStack(color, stack)
    ensures acyclic ==> Advanced(color0, color) && color[node] == Black
    ensures !acyclic ==> HasCycle(nodes, edges)
  {
    EnterKeeps(nodes, edges, adjacency, color0, finish0, clock0, stack, node);
    color, finish, clock := color0[node := Gray], finish0, clock0;
    ghost var path := stack + [node];
    var neighbors := adjacency[node];
    for i := 0 to |neighbors|
      invariant Finished(adjacency, color, finish, clock) && GrayStack(color, path)
      invariant Advanced(color0, color) && color[node] == Gray
      invariant AllBlack(color, neighbors[..i])
    {
      var neighbor := neighbors[i];
      assert neighbor in adjacency[node];
      if color[neighbor] == Gray {
        BackEdgeCloses(nodes, edges, path, neighbor);
        return false, color, finish, clock;
      } else if color[neighbor] == White {
        FewerWhites(color0, color, node);
        var ok, after;
        ghost var finished, time;
        ok, after, finished, time := Dfs(nodes, edges, adjacency, color, neighbor, path, finish, clock);
        if !ok {
          return false, after, finished, time;
        }
        ChildDone(color0, color, after, neighbors, i);
        color, finish, clock := after, finished, time;
      } else {
        AllBlackPrefix(color, neighbors, i);
      }
    }
    assert neighbors[..|neighbors|] == neighbors;
    FinishKeeps(adjacency, color, finish, clock, stack, node);
    AdvancedTransitive(color0, color, color[node := Black]);
    color, finish, clock := color[node := Black], finish[node := clock], clock + 1;
    return true, color, finish, clock;
  }

  /** The inner search of `find_cycle_dfs`: the same traversal, but each
      call receives a copy of the path of nodes colored 1 above it, and a
      neighbour colored 1 yields the path from that neighbour on, closed by
      the neighbour again. */
  method FindFrom(ghost nodes: seq<NodeId>, ghost edges: seq<Edge>, adjacency: map<NodeId, seq<NodeId>>,
                  color0: map<NodeId, Color>, node: NodeId, path: seq<NodeId>,
                  ghost finish0: map<NodeId, int>, ghost clock0: int)
    returns (cycle: Option<seq<NodeId>>, color: map<NodeId, Color>, ghost finish: map<NodeId, int>, ghost clock: int)
    requires Shaped(nodes, edges, adjacency)
    requires Finished(adjacency, color0, finish0, clock0) && GrayStack(color0, path)
    requires IsWalk(nodes, edges, path) && Unrepeated(path)
    requires node in color0 && color0[node] == White
    requires path != [] ==> IsEdge(nodes, edges, path[|path| - 1], node)
    decreases |Whites(color0)|
    ensures cycle.None? ==> Finished(adjacency, color, finish, clock) && GrayStack(color, path)
    ensures cycle.None? ==> Advanced(color0, color) && color[node] == Black
    ensures cycle.Some? ==> IsSimpleCycle(nodes, edges, cycle.value)
  {
    EnterKeeps(nodes, edges, adjacency, color0, finish0, clock0, path, node);
    assert Unrepeated(path + [node]) by {
      EnterUnrepeated(color0, path, node);
    }
    color, finish, clock := color0[node := Gray], finish0, clock0;
    var walk := path + [node];
    var neighbors := adjacency[node];
    for i := 0 to |neighbors|
      invariant Finished(adjacency, color, finish, clock) && GrayStack(color, walk)
      invariant Advanced(color0, color) && color[node] == Gray
      invariant AllBlack(color, neighbors[..i])
    {
      var neighbor := neighbors[i];
      assert neighbor in adjacency[node];
      if color[neighbor] == Gray {
        return Some(CycleThrough(nodes, edges, walk, neighbor)), color, finish, clock;
      } else if color[neighbor] == White {
        FewerWhites(color0, color, node);
        var result, after;
        ghost var finished, time;
        result, after, finished, time := FindFrom(nodes, edges, adjacency, color, neighbor, walk, finish, clock);
        if result.Some? {
          return result, after, finished, time;
        }
        ChildDone(color0, color, after, neighbors, i);
        color, finish, clock := after, finished, time;
      } else {
        AllBlackPrefix(color, neighbors, i);
      }
    }
    assert neighbors[..|neighbors|] == neighbors;
    FinishKeeps(adjacency, color, finish, clock, path, node);
    AdvancedTransitive(color0, color, color[node := Black]);
    color, finish, clock := color[node := Black], finish[node := clock], clock + 1;
    return None, color, finish, clock;
  }

  /** The coloring every detection starts from: each declared node 0, over
      the adjacency view of the graph. */
  lemma StartState(nodes: seq<NodeId>, edges: seq<Edge>, adjacency: map<NodeId, seq<NodeId>>, color: map<NodeId, Color>)
    requires adjacency == Adjacency(nodes, edges)
    requires color == map n | n in nodes :: White
    ensures Shaped(nodes, edges, adjacency)
    ensures Finished(adjacency, color, map[], 0) && GrayStack(color, [])
  {
    AdjacencyIsEdgeRelation(nodes, edges);
  }

  /** `is_dag_dfs`: starts a search from every node still colored 0, in
      declaration order, and reports a DAG when no search met a back edge. */
  method IsDagDfs(nodes: seq<NodeId>, edges: seq<Edge>) returns (dag: bool)
    ensures dag <==> !HasCycle(nodes, edges)
  {
    var adjacency := BuildAdjacency(nodes, edges);
    var color := map n | n in nodes :: White;
    ghost var finish: map<NodeId, int>, clock := map[], 0;
    StartState(nodes, edges, adjacency, color);
    for i := 0 to |nodes|
      invariant Finished(adjacency, color, finish, clock) && GrayStack(color, [])
      invariant AllBlack(color, nodes[..i])
    {
      assert nodes[i] in adjacency;
      if color[nodes[i]] == White {
        var acyclic, after;
        ghost var finished, time;
        acyclic, after, finished, time := Dfs(nodes, edges, adjacency, color, nodes[i], [], finish, clock);
        if !acyclic {
          return false;
        }
        AllBlackAdvanced(color, after, nodes[..i]);
        color, finish, clock := after, finished, time;
      }
      assert color[nodes[i]] != Gray;
      AllBlackPrefix(color, nodes, i);
    }
    assert nodes[..|nodes|] == nodes;
    forall n | n in color ensures color[n] == Black {
      assert n in nodes;
    }
    NoCycleWhenAllFinished(nodes, edges, adjacency, color, finish, clock);
    return true;
  }

  /** `find_cycle_dfs`: the same outer loop, returning the first cycle found,
      or nothing when the graph is a DAG. */
  method FindCycleDfs(nodes: seq<NodeId>, edges: seq<Edge>) returns (cycle: Option<seq<NodeId>>)
    ensures cycle.None? <==> !HasCycle(nodes, edges)
    ensures cycle.Some? ==> IsSimpleCycle(nodes, edges, cycle.value)
  {
    var adjacency := BuildAdjacency(nodes, edges);
    var color := map n | n in nodes :: White;
    ghost var finish: map<NodeId, int>, clock := map[], 0;
    StartState(nodes, edges, adjacency, color);
    for i := 0 to |nodes|
      invariant Finished(adjacency, color, finish, clock) && GrayStack(color, [])
      invariant AllBlack(color, nodes[..i])
    {
      assert nodes[i] in adjacency;
      if color[nodes[i]] == White {
        var found, after;
        ghost var finished, time;
        found, after, finished, time := FindFrom(nodes, edges, adjacency, color, nodes[i], [], finish, clock);
        if found.Some? {
          return found;
        }
        AllBlackAdvanced(color, after, nodes[..i]);
        color, finish, clock := after, finished, time;
      }
      assert color[nodes[i]] != Gray;
      AllBlackPrefix(color, nodes, i);
    }
    assert nodes[..|nodes|] == nodes;
    forall n | n in color ensures color[n] == Black {
      assert n in nodes;
    }
    NoCycleWhenAllFinished(nodes, edges, adjacency, color, finish, clock);
    return None;
  }
}
