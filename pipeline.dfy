/**
 * The pipeline backend's own acyclicity check, `is_dag_topological`
 * (Kahn's algorithm), and the decision `parse_pipeline` makes from the
 * depth-first verdict and cycle.
 */
module Pipeline {
  import opened Graphs
  import DagUtils

  // ---------------------------------------------------------------------
  // In-degrees

  /** The number of edges into `v` whose endpoints are both declared and
      whose source is not in `removed`. With nothing removed this is the
      in-degree of `v` in the graph. */
  function PendingIn(nodes: seq<NodeId>, edges: seq<Edge>, removed: set<NodeId>, v: NodeId): nat
    decreases |edges|
  {
    if edges == [] then 0
    else
      var e := edges[|edges| - 1];
      PendingIn(nodes, edges[..|edges| - 1], removed, v)
        + (if e.target == v && e.source in nodes && e.target in nodes && e.source !in removed then 1 else 0)
  }

  /** The count is zero exactly when every predecessor of `v` is removed. */
  lemma {:induction false} PendingZeroIff(nodes: seq<NodeId>, edges: seq<Edge>, removed: set<NodeId>, v: NodeId)
    ensures PendingIn(nodes, edges, removed, v) == 0 <==>
            forall a :: IsEdge(nodes, edges, a, v) ==> a in removed
    decreases |edges|
  {
    if edges != [] {
      var init, e := edges[..|edges| - 1], edges[|edges| - 1];
      assert edges == init + [e];
      PendingZeroIff(nodes, init, removed, v);
      forall a ensures IsEdge(nodes, edges, a, v) <==> IsEdge(nodes, init, a, v) || (e == Edge(a, v) && a in nodes && v in nodes) {
      }
      if PendingIn(nodes, edges, removed, v) != 0 && PendingIn(nodes, init, removed, v) == 0 {
        assert IsEdge(nodes, edges, e.source, v) && e.source !in removed;
      }
    }
  }

  /** Removing one more node `u` lowers every count by the number of edges
      from `u`, that is by the multiplicity of the target in `u`'s list. */
  lemma {:induction false} PendingSplit(nodes: seq<NodeId>, edges: seq<Edge>, removed: set<NodeId>, u: NodeId, v: NodeId)
    requires u !in removed
    ensures PendingIn(nodes, edges, removed, v)
         == PendingIn(nodes, edges, removed + {u}, v) + multiset(Successors(nodes, edges, u))[v]
    decreases |edges|
  {
    if edges != [] {
      PendingSplit(nodes, edges[..|edges| - 1], removed, u, v);
    }
  }

  // ---------------------------------------------------------------------
  // Setup

  /** The in-degree of every declared node. */
  function InDegrees(nodes: seq<NodeId>, edges: seq<Edge>): map<NodeId, int> {
    map v | v in nodes :: PendingIn(nodes, edges, {}, v)
  }

  /** One more supplied edge raises the in-degree of its target, when both
      its endpoints are declared, and changes nothing otherwise. */
  lemma InDegreesStep(nodes: seq<NodeId>, edges: seq<Edge>, i: nat)
    requires i < |edges|
    ensures var e, before := edges[i], InDegrees(nodes, edges[..i]);
            InDegrees(nodes, edges[..i + 1])
            == if e.source in nodes && e.target in nodes then before[e.target := before[e.target] + 1] else before
  {
    assert edges[..i + 1][..i] == edges[..i];
  }

  /** The first loop of `is_dag_topological`: it builds the adjacency view
      and counts, for every declared node, the edges into it whose endpoints
      are both declared. */
  method CountInDegrees(nodeIds: seq<NodeId>, edges: seq<Edge>)
    returns (adjacency: map<NodeId, seq<NodeId>>, indegree: map<NodeId, int>)
    ensures adjacency == Adjacency(nodeIds, edges)
    ensures indegree == InDegrees(nodeIds, edges)
  {
    adjacency := map v | v in nodeIds :: [];
    indegree := map v | v in nodeIds :: 0;
    assert adjacency == Adjacency(nodeIds, edges[..0]);
    assert indegree == InDegrees(nodeIds, edges[..0]);
    for i := 0 to |edges|
      invariant adjacency == Adjacency(nodeIds, edges[..i])
      invariant indegree == InDegrees(nodeIds, edges[..i])
    {
      var e := edges[i];
      assert e.source in adjacency && e.target in adjacency <==> e.source in nodeIds && e.target in nodeIds;
      if e.source in adjacency && e.target in adjacency {
        adjacency := adjacency[e.source := adjacency[e.source] + [e.target]];
        indegree := indegree[e.target := indegree[e.target] + 1];
      }
      assert adjacency == Adjacency(nodeIds, edges[..i + 1]) by {
        AdjacencyStep(nodeIds, edges, i);
      }
      assert indegree == InDegrees(nodeIds, edges[..i + 1]) by {
        InDegreesStep(nodeIds, edges, i);
      }
    }
    assert edges[..|edges|] == edges;
  }

  /** The key order of a dictionary built from `ids`: each id at its first
      occurrence. */
  function FirstOccurrences(ids: seq<NodeId>): (keys: seq<NodeId>)
    ensures Distinct(keys)
    ensures forall v :: v in keys <==> v in ids
    decreases |ids|
  {
    if ids == [] then []
    else
      var keys := FirstOccurrences(ids[..|ids| - 1]);
      var last := ids[|ids| - 1];
      assert forall v :: v in ids <==> v in ids[..|ids| - 1] || v == last by {
        assert ids == ids[..|ids| - 1] + [last];
      }
      if last in keys then keys else keys + [last]
  }

  /** The initial worklist: the keys whose in-degree is 0, in key order. */
  function ZeroInDegree(keys: seq<NodeId>, indegree: map<NodeId, int>): (queue: seq<NodeId>)
    requires forall v :: v in keys ==> v in indegree
    ensures Distinct(keys) ==> Distinct(queue)
    ensures forall v :: v in queue <==> v in keys && indegree[v] == 0
    decreases |keys|
  {
    if keys == [] then []
    else
      var rest := ZeroInDegree(keys[1..], indegree);
      assert forall v :: v in keys <==> v == keys[0] || v in keys[1..] by {
        assert keys == [keys[0]] + keys[1..];
      }
      if indegree[keys[0]] == 0 then [keys[0]] + rest else rest
  }

  // ---------------------------------------------------------------------
  // The elimination loop's invariants

  /** Every node not yet popped has, as its in-degree, the number of its
      incoming edges from nodes not yet popped. */
  ghost predicate Pending(nodeIds: seq<NodeId>, edges: seq<Edge>, indegree: map<NodeId, int>, popped: set<NodeId>) {
    forall v :: v in nodeIds && v !in popped ==> v in indegree && indegree[v] == PendingIn(nodeIds, edges, popped, v)
  }

  /** The worklist holds declared nodes outside `out`, each at most once. */
  ghost predicate Queued(nodeIds: seq<NodeId>, queue: seq<NodeId>, out: set<NodeId>) {
    && Distinct(queue)
    && (forall i :: 0 <= i < |queue| ==> queue[i] in nodeIds && queue[i] !in out)
  }

  lemma QueueAppend(nodeIds: seq<NodeId>, queue: seq<NodeId>, out: set<NodeId>, n: NodeId)
    requires Queued(nodeIds, queue, out) && n in nodeIds && n !in out && n !in queue
    ensures Queued(nodeIds, queue + [n], out)
  {
    var q := queue + [n];
    forall i | 0 <= i < |q| ensures q[i] in nodeIds && q[i] !in out {
      if i < |queue| { assert q[i] == queue[i]; }
    }
    forall i, k | 0 <= i < k < |q| ensures q[i] != q[k] {
      if k == |queue| { assert q[i] == queue[i] && queue[i] in queue; }
      else { assert q[i] == queue[i] && q[k] == queue[k]; }
    }
  }

  /** The worklist holds, once each, exactly the nodes not yet popped whose
      in-degree is 0. */
  ghost predicate Worklist(nodeIds: seq<NodeId>, indegree: map<NodeId, int>, queue: seq<NodeId>, popped: set<NodeId>) {
    && Queued(nodeIds, queue, popped)
    && (forall v :: v in nodeIds && v !in popped ==> v in indegree && (v in queue <==> indegree[v] == 0))
  }

  /** `pos` numbers the popped nodes in popping order, and every edge into a
      popped node comes from a node popped before it. */
  ghost predicate PopOrder(nodeIds: seq<NodeId>, edges: seq<Edge>, popped: set<NodeId>, pos: map<NodeId, int>) {
    && pos.Keys == popped
    && (forall a :: a in popped ==> pos[a] < |popped|)
    && (forall a, w :: IsEdge(nodeIds, edges, a, w) && w in popped ==> a in popped && pos[a] < pos[w])
  }

  lemma PrefixCount(s: seq<NodeId>, j: nat)
    requires j < |s|
    ensures multiset(s[..j + 1]) == multiset(s[..j]) + multiset{s[j]}
    ensures multiset(s[..j + 1]) <= multiset(s)
  {
    assert s[..j + 1] == s[..j] + [s[j]];
    assert s == s[..j + 1] + s[j + 1..];
  }

  // ---------------------------------------------------------------------
  // Counting and cycles

  lemma DistinctTail(s: seq<NodeId>)
    requires s != [] && Distinct(s)
    ensures s[0] !in s[1..] && Distinct(s[1..])
  {
    var rest := s[1..];
    forall i, j | 0 <= i < j < |rest| ensures rest[i] != rest[j] {
      assert rest[i] == s[i + 1] && rest[j] == s[j + 1];
    }
  }

  lemma DistinctCons(x: NodeId, rest: seq<NodeId>)
    requires x !in rest && Distinct(rest)
    ensures Distinct([x] + rest)
  {
    var s := [x] + rest;
    forall i, j | 0 <= i < j < |s| ensures s[i] != s[j] {
      assert s[j] == rest[j - 1];
      if i > 0 { assert s[i] == rest[i - 1]; }
    }
  }

  /** A list has at least as many entries as distinct values, and exactly
      as many when its entries are distinct. */
  lemma {:induction false} DistinctCount(s: seq<NodeId>)
    ensures |set v | v in s| <= |s|
    ensures |set v | v in s| == |s| <==> Distinct(s)
  {
    if s != [] {
      var rest := s[1..];
      DistinctCount(rest);
      assert s == [s[0]] + rest;
      assert (set v | v in s) == (set v | v in rest) + {s[0]};
      if Distinct(s) {
        DistinctTail(s);
      }
      if s[0] !in rest && Distinct(rest) {
        DistinctCons(s[0], rest);
      }
    }
  }

  /** A list longer than the set its entries come from repeats an entry. */
  lemma {:induction false} Pigeonhole(s: seq<NodeId>, r: set<NodeId>)
    requires forall i :: 0 <= i < |s| ==> s[i] in r
    requires |s| > |r|
    ensures exists i, j :: 0 <= i < j < |s| && s[i] == s[j]
  {
    if s[0] in s[1..] {
      var k :| 0 <= k < |s[1..]| && s[1..][k] == s[0];
      assert s[0] == s[k + 1];
    } else {
      var rest := s[1..];
      forall i | 0 <= i < |rest| ensures rest[i] in r - {s[0]} {
        assert rest[i] == s[i + 1];
      }
      Pigeonhole(rest, r - {s[0]});
      var i, j :| 0 <= i < j < |rest| && rest[i] == rest[j];
      assert s[i + 1] == s[j + 1];
    }
  }

  /** `x` has a predecessor in `r`. */
  ghost predicate FedFrom(nodes: seq<NodeId>, edges: seq<Edge>, r: set<NodeId>, x: NodeId) {
    exists a :: a in r && IsEdge(nodes, edges, a, x)
  }

  /** Every node of `r` has a predecessor in `r`. */
  ghost predicate Unsourced(nodes: seq<NodeId>, edges: seq<Edge>, r: set<NodeId>) {
    forall x {:trigger FedFrom(nodes, edges, r, x)} :: x in r ==> FedFrom(nodes, edges, r, x)
  }

  /** Walking backwards from `v` inside such a set gives walks of any length. */
  lemma {:induction false} BackwardWalk(nodes: seq<NodeId>, edges: seq<Edge>, r: set<NodeId>, v: NodeId, n: nat)
    returns (w: seq<NodeId>)
    requires Unsourced(nodes, edges, r) && v in r
    ensures |w| == n + 1 && IsWalk(nodes, edges, w)
    ensures forall i :: 0 <= i < |w| ==> w[i] in r
  {
    if n == 0 {
      w := [v];
    } else {
      var tail := BackwardWalk(nodes, edges, r, v, n - 1);
      assert FedFrom(nodes, edges, r, tail[0]);
      var a :| a in r && IsEdge(nodes, edges, a, tail[0]);
      w := [a] + tail;
      forall i | 0 <= i < |w| - 1 ensures IsEdge(nodes, edges, w[i], w[i + 1]) {
        if i > 0 { assert w[i] == tail[i - 1] && w[i + 1] == tail[i]; }
      }
      forall i | 0 <= i < |w| ensures w[i] in r {
        if i > 0 { assert w[i] == tail[i - 1]; }
      }
    }
  }

  /** A nonempty set of nodes each with a predecessor inside the set holds a
      cycle. */
  lemma CycleFromPredecessors(nodes: seq<NodeId>, edges: seq<Edge>, r: set<NodeId>)
    requires r != {} && Unsourced(nodes, edges, r)
    ensures HasCycle(nodes, edges)
  {
    var v :| v in r;
    var w := BackwardWalk(nodes, edges, r, v, |r|);
    Pigeonhole(w, r);
    var i, j :| 0 <= i < j < |w| && w[i] == w[j];
    var c := w[i..j + 1];
    forall k | 0 <= k < |c| - 1 ensures IsEdge(nodes, edges, c[k], c[k + 1]) {
      assert c[k] == w[i + k] && c[k + 1] == w[i + k + 1];
    }
    assert IsCycle(nodes, edges, c);
  }

  // ---------------------------------------------------------------------
  // Kahn's algorithm

  /** Popping the last node `u` of the worklist leaves a worklist for the
      remaining nodes: `u` is a declared node not yet popped, of in-degree 0,
      and occurs nowhere else in the worklist. */
  lemma {:induction false} PopKeepsWorklist(nodeIds: seq<NodeId>, indegree: map<NodeId, int>, queue: seq<NodeId>,
                                            popped: set<NodeId>)
    requires queue != [] && Worklist(nodeIds, indegree, queue, popped)
    ensures var u := queue[|queue| - 1];
            && u in nodeIds && u !in popped && u in indegree && indegree[u] == 0
            && Worklist(nodeIds, indegree, queue[..|queue| - 1], popped + {u})
  {
    var u, rest := queue[|queue| - 1], queue[..|queue| - 1];
    assert queue == rest + [u];
    assert u in queue;
    forall i | 0 <= i < |rest| ensures rest[i] in nodeIds && rest[i] !in popped + {u} {
      assert rest[i] == queue[i];
    }
  }

  /** A node popped with no predecessor left unpopped gets the next popping
      number; it has no edge to itself or to a node already popped. */
  lemma PopKeepsOrder(nodeIds: seq<NodeId>, edges: seq<Edge>, popped: set<NodeId>, pos: map<NodeId, int>, u: NodeId)
    requires PopOrder(nodeIds, edges, popped, pos)
    requires u !in popped && PendingIn(nodeIds, edges, popped, u) == 0
    ensures PopOrder(nodeIds, edges, popped + {u}, pos[u := |popped|])
    ensures forall n :: n in Successors(nodeIds, edges, u) ==> n in nodeIds && n !in popped + {u}
  {
    assert PopOrder(nodeIds, edges, popped + {u}, pos[u := |popped|]) by {
      PendingZeroIff(nodeIds, edges, popped, u);
    }
    assert multiset(Successors(nodeIds, edges, u))[u] == 0 by {
      PendingSplit(nodeIds, edges, popped, u, u);
    }
    forall n | n in Successors(nodeIds, edges, u) ensures n in nodeIds && n !in popped + {u} {
      SuccessorsAreEdges(nodeIds, edges, u, n);
    }
  }

  /** Part way through releasing the targets of `u`: the count of each
      waiting node is its count with only the nodes of `popped` removed, less
      its occurrences among the targets released so far, and the node is on
      the worklist exactly when that count is 0. */
  ghost predicate Releasing(nodeIds: seq<NodeId>, edges: seq<Edge>, popped: set<NodeId>, u: NodeId,
                            released: seq<NodeId>, indegree: map<NodeId, int>, queue: seq<NodeId>) {
    forall v :: v in nodeIds && v !in popped + {u} ==>
      v in indegree && indegree[v] + multiset(released)[v] == PendingIn(nodeIds, edges, popped, v)
      && (v in queue <==> indegree[v] == 0)
  }

  /** Releasing one more target finds its count positive, lowers it by one
      and appends the target to the worklist exactly when the count reaches 0. */
  lemma ReleaseOne(nodeIds: seq<NodeId>, edges: seq<Edge>, popped: set<NodeId>, u: NodeId,
                   neighbors: seq<NodeId>, j: nat, indegree: map<NodeId, int>, queue: seq<NodeId>)
    requires j < |neighbors| && neighbors[j] in nodeIds && neighbors[j] !in popped + {u}
    requires multiset(neighbors)[neighbors[j]] <= PendingIn(nodeIds, edges, popped, neighbors[j])
    requires Releasing(nodeIds, edges, popped, u, neighbors[..j], indegree, queue)
    ensures var n := neighbors[j];
            && n in indegree && indegree[n] >= 1 && n !in queue
            && var d := indegree[n := indegree[n] - 1];
               Releasing(nodeIds, edges, popped, u, neighbors[..j + 1], d, if d[n] == 0 then queue + [n] else queue)
  {
    var n := neighbors[j];
    PrefixCount(neighbors, j);
    var d := indegree[n := indegree[n] - 1];
    var q := if d[n] == 0 then queue + [n] else queue;
    forall v | v in nodeIds && v !in popped + {u}
      ensures v in d && d[v] + multiset(neighbors[..j + 1])[v] == PendingIn(nodeIds, edges, popped, v)
      ensures v in q <==> d[v] == 0
    {
      if v != n {
        assert v in q <==> v in queue;
      }
    }
  }

  /** The inner loop of `is_dag_topological`: lowers the in-degree of every
      target of the popped node `u` and appends each target whose in-degree
      reaches 0 to the worklist, so that counts and worklist again describe
      the nodes not yet popped. */
  method Release(ghost nodeIds: seq<NodeId>, ghost edges: seq<Edge>, ghost popped: set<NodeId>, ghost u: NodeId,
                 neighbors: seq<NodeId>, indegree0: map<NodeId, int>, queue0: seq<NodeId>)
    returns (indegree: map<NodeId, int>, queue: seq<NodeId>)
    requires u !in popped && neighbors == Successors(nodeIds, edges, u)
    requires forall n :: n in neighbors ==> n in nodeIds && n !in popped + {u}
    requires Pending(nodeIds, edges, indegree0, popped)
    requires Worklist(nodeIds, indegree0, queue0, popped + {u})
    ensures Pending(nodeIds, edges, indegree, popped + {u})
    ensures Worklist(nodeIds, indegree, queue, popped + {u})
  {
    indegree, queue := indegree0, queue0;
    assert Releasing(nodeIds, edges, popped, u, neighbors[..0], indegree, queue);
    forall v ensures PendingIn(nodeIds, edges, popped, v) == PendingIn(nodeIds, edges, popped + {u}, v) + multiset(neighbors)[v] {
      PendingSplit(nodeIds, edges, popped, u, v);
    }
    for j := 0 to |neighbors|
      invariant Queued(nodeIds, queue, popped + {u})
      invariant Releasing(nodeIds, edges, popped, u, neighbors[..j], indegree, queue)
    {
      var neighbor := neighbors[j];
      assert neighbor in neighbors;
      ReleaseOne(nodeIds, edges, popped, u, neighbors, j, indegree, queue);
      indegree := indegree[neighbor := indegree[neighbor] - 1];
      if indegree[neighbor] == 0 {
        QueueAppend(nodeIds, queue, popped + {u}, neighbor);
        queue := queue + [neighbor];
      }
    }
    assert neighbors[..|neighbors|] == neighbors;
  }

  /** With the worklist empty, every node not yet popped still has a
      predecessor that was not popped either. */
  lemma StuckUnsourced(nodeIds: seq<NodeId>, edges: seq<Edge>, indegree: map<NodeId, int>, popped: set<NodeId>)
    requires Pending(nodeIds, edges, indegree, popped) && Worklist(nodeIds, indegree, [], popped)
    ensures Unsourced(nodeIds, edges, (set v | v in nodeIds) - popped)
  {
    var r := (set v | v in nodeIds) - popped;
    forall x | x in r ensures FedFrom(nodeIds, edges, r, x) {
      PendingZeroIff(nodeIds, edges, popped, x);
      var a :| IsEdge(nodeIds, edges, a, x) && a !in popped;
      assert a in r;
    }
  }

  /** When the worklist runs dry, every node was popped exactly when the ids
      are distinct and the graph has no cycle: popping numbers then rank the
      graph, and otherwise the nodes never popped each keep a predecessor
      among themselves. */
  lemma {:induction false} Verdict(nodeIds: seq<NodeId>, edges: seq<Edge>, indegree: map<NodeId, int>,
                popped: set<NodeId>, pos: map<NodeId, int>)
    requires popped <= set v | v in nodeIds
    requires Pending(nodeIds, edges, indegree, popped) && Worklist(nodeIds, indegree, [], popped)
    requires PopOrder(nodeIds, edges, popped, pos)
    ensures |popped| == |nodeIds| <==> Distinct(nodeIds) && !HasCycle(nodeIds, edges)
  {
    var ids := set v | v in nodeIds;
    DistinctCount(nodeIds);
    if |popped| == |nodeIds| {
      SubsetSameSize(popped, ids);
      NoCycleWhenRanked(nodeIds, edges, map v | v in popped :: -pos[v]);
    } else if Distinct(nodeIds) {
      assert |popped| != |ids| && popped <= ids;
      assert popped != ids;
      var w :| w in ids && w !in popped;
      assert w in ids - popped;
      StuckUnsourced(nodeIds, edges, indegree, popped);
      CycleFromPredecessors(nodeIds, edges, ids - popped);
    }
  }

  /** The state before the elimination loop: counts are the in-degrees, the
      worklist holds the nodes of in-degree 0, and nothing is popped. */
  lemma StartKahn(nodeIds: seq<NodeId>, edges: seq<Edge>, indegree: map<NodeId, int>)
    requires indegree == InDegrees(nodeIds, edges)
    ensures Pending(nodeIds, edges, indegree, {})
    ensures Worklist(nodeIds, indegree, ZeroInDegree(FirstOccurrences(nodeIds), indegree), {})
    ensures PopOrder(nodeIds, edges, {}, map[])
  {
  }

  /** `is_dag_topological`. The worklist is popped from its end; each
      popped node lowers the in-degree of its targets and releases those
      that reach 0. The answer compares the number of popped nodes with the
      length of the id list, so duplicated ids make it false. */
  method IsDagTopological(nodeIds: seq<NodeId>, edges: seq<Edge>) returns (dag: bool)
    ensures dag <==> Distinct(nodeIds) && !HasCycle(nodeIds, edges)
  {
    var adjacency, indegree := CountInDegrees(nodeIds, edges);
    var queue := ZeroInDegree(FirstOccurrences(nodeIds), indegree);
    var visited := 0;
    StartKahn(nodeIds, edges, indegree);
    ghost var ids := set v | v in nodeIds;
    ghost var popped: set<NodeId> := {};
    ghost var pos: map<NodeId, int> := map[];
    while queue != []
      invariant popped <= ids && visited == |popped|
      invariant Pending(nodeIds, edges, indegree, popped)
      invariant Worklist(nodeIds, indegree, queue, popped)
      invariant PopOrder(nodeIds, edges, popped, pos)
      decreases |ids - popped|
    {
      var u := queue[|queue| - 1];
      PopKeepsWorklist(nodeIds, indegree, queue, popped);
      PopKeepsOrder(nodeIds, edges, popped, pos, u);
      queue := queue[..|queue| - 1];
      visited := visited + 1;
      SubsetWithoutIsSmaller(ids - (popped + {u}), ids - popped, u);
      assert adjacency[u] == Successors(nodeIds, edges, u);
      indegree, queue := Release(nodeIds, edges, popped, u, adjacency[u], indegree, queue);
      popped, pos := popped + {u}, pos[u := |popped|];
    }
    Verdict(nodeIds, edges, indegree, popped, pos);
    return visited == |nodeIds|;
  }

  // ---------------------------------------------------------------------
  // The parse endpoint's decision

  /** What the parse endpoint reports about a submitted pipeline. */
  datatype Summary = Summary(numNodes: nat, numEdges: nat, isDag: bool, cycle: Option<seq<NodeId>>)

  /** `parse_pipeline` without the HTTP layer: counts, the DFS verdict, and a
      cycle searched for only when the verdict is negative. The edge count
      includes edges whose endpoints are not declared. */
  method ParsePipeline(nodeIds: seq<NodeId>, edges: seq<Edge>) returns (summary: Summary)
    ensures summary.numNodes == |nodeIds| && summary.numEdges == |edges|
    ensures summary.isDag <==> !HasCycle(nodeIds, edges)
    ensures summary.cycle.None? <==> summary.isDag
    ensures summary.cycle.Some? ==> IsSimpleCycle(nodeIds, edges, summary.cycle.value)
  {
    var isDag := DagUtils.IsDagDfs(nodeIds, edges);
    var cycle: Option<seq<NodeId>> := None;
    if !isDag {
      cycle := DagUtils.FindCycleDfs(nodeIds, edges);
    }
    return Summary(|nodeIds|, |edges|, isDag, cycle);
  }

  /** On ids that are all distinct, the depth-first verdict and the
      elimination verdict agree. */
  method VerdictsAgree(nodeIds: seq<NodeId>, edges: seq<Edge>) returns (byDfs: bool, byElimination: bool)
    requires Distinct(nodeIds)
    ensures byDfs == byElimination
  {
    byDfs := DagUtils.IsDagDfs(nodeIds, edges);
    byElimination := IsDagTopological(nodeIds, edges);
  }

  // ---------------------------------------------------------------------
  // Small graphs

  /** A self-loop is a cycle; its witness is `[A, A]`. */
  lemma SelfLoopHasCycle()
    ensures HasCycle(["A"], [Edge("A", "A")])
  {
    assert IsCycle(["A"], [Edge("A", "A")], ["A", "A"]);
  }

  /** The only cycle of a self-loop on A that repeats no node is `[A, A]`,
      so that is the list `find_cycle_dfs` returns for it. */
  lemma SelfLoopCycle(c: seq<NodeId>)
    requires IsSimpleCycle(["A"], [Edge("A", "A")], c)
    ensures c == ["A", "A"]
  {
    var nodes, edges := ["A"], [Edge("A", "A")];
    forall i | 0 <= i < |c| ensures c[i] == "A" {
      if i < |c| - 1 {
        assert IsEdge(nodes, edges, c[i], c[i + 1]);
      } else {
        assert IsEdge(nodes, edges, c[i - 1], c[i]);
      }
    }
    var open := c[..|c| - 1];
    DistinctCount(open);
    assert (set v | v in open) <= {"A"};
    assert |open| <= 1 by {
      SubsetCard(set v | v in open, {"A"});
    }
  }

  /** Two nodes with edges both ways: a reported cycle has three entries,
      `[A, B, A]` or `[B, A, B]`. */
  lemma TwoNodeCycle(c: seq<NodeId>)
    requires IsSimpleCycle(["A", "B"], [Edge("A", "B"), Edge("B", "A")], c)
    ensures c == ["A", "B", "A"] || c == ["B", "A", "B"]
  {
    var nodes, edges := ["A", "B"], [Edge("A", "B"), Edge("B", "A")];
    forall i | 0 <= i < |c| - 1 ensures c[i] != c[i + 1] && c[i] in nodes {
      assert IsEdge(nodes, edges, c[i], c[i + 1]);
    }
    var open := c[..|c| - 1];
    DistinctCount(open);
    assert (set v | v in open) <= {"A", "B"};
    assert |open| <= 2 by {
      SubsetCard(set v | v in open, {"A", "B"});
    }
    assert c[0] != c[1];
  }

  /** With no nodes declared there is no cycle, whatever the edges, so
      `is_dag_dfs` answers true and `find_cycle_dfs` returns nothing. */
  lemma EmptyGraphAcyclic(edges: seq<Edge>)
    ensures !HasCycle([], edges)
  {
    forall w ensures !IsCycle([], edges, w) {
      if |w| >= 2 {
        assert !IsEdge([], edges, w[0], w[1]);
      }
    }
  }

  /** Three nodes joined in a ring form the cycle `[A, B, C, A]`. */
  lemma ThreeNodeRing()
    ensures IsSimpleCycle(["A", "B", "C"], [Edge("A", "B"), Edge("B", "C"), Edge("C", "A")], ["A", "B", "C", "A"])
  {
    var nodes, edges := ["A", "B", "C"], [Edge("A", "B"), Edge("B", "C"), Edge("C", "A")];
    var w := ["A", "B", "C", "A"];
    assert IsEdge(nodes, edges, w[0], w[1]) && IsEdge(nodes, edges, w[1], w[2]) && IsEdge(nodes, edges, w[2], w[3]);
    assert w[..3] == ["A", "B", "C"];
  }

  /** Every simple cycle of the ring A -> B -> C -> A is one of its three
      rotations: it visits each node once, in ring order. */
  lemma RingCycle(c: seq<NodeId>)
    requires IsSimpleCycle(["A", "B", "C"], [Edge("A", "B"), Edge("B", "C"), Edge("C", "A")], c)
    ensures c == ["A", "B", "C", "A"] || c == ["B", "C", "A", "B"] || c == ["C", "A", "B", "C"]
  {
    var nodes, edges := ["A", "B", "C"], [Edge("A", "B"), Edge("B", "C"), Edge("C", "A")];
    forall i | 0 <= i < |c| - 1
      ensures (c[i] == "A" && c[i + 1] == "B") || (c[i] == "B" && c[i + 1] == "C") || (c[i] == "C" && c[i + 1] == "A")
    {
      assert IsEdge(nodes, edges, c[i], c[i + 1]);
    }
    var open := c[..|c| - 1];
    DistinctCount(open);
    forall v | v in open ensures v in {"A", "B", "C"} {
      var i :| 0 <= i < |open| && open[i] == v;
      assert c[i] == v && IsEdge(nodes, edges, c[i], c[i + 1]);
    }
    assert |open| <= 3 by {
      SubsetCard(set v | v in open, {"A", "B", "C"});
    }
    assert c[0] != c[1];
    assert |c| >= 3 ==> c[2] != c[0];
  }

  /** A single edge between two declared nodes makes no cycle. */
  lemma SingleEdgeAcyclic()
    ensures !HasCycle(["A", "B"], [Edge("A", "B")])
  {
    var nodes, edges := ["A", "B"], [Edge("A", "B")];
    forall u, v | IsEdge(nodes, edges, u, v) ensures u == "A" && v == "B" { }
    NoCycleWhenRanked(nodes, edges, map["A" := 1, "B" := 0]);
  }

  /** The chain A -> B -> C has no cycle: every edge descends in the ranks
      A = 2, B = 1, C = 0. */
  lemma ChainAcyclic()
    ensures !HasCycle(["A", "B", "C"], [Edge("A", "B"), Edge("B", "C")])
  {
    var nodes, edges := ["A", "B", "C"], [Edge("A", "B"), Edge("B", "C")];
    forall u, v | IsEdge(nodes, edges, u, v) ensures (u == "A" && v == "B") || (u == "B" && v == "C") { }
    NoCycleWhenRanked(nodes, edges, map["A" := 2, "B" := 1, "C" := 0]);
  }

  /** A repeated id makes the elimination verdict negative even without edges,
      while the graph itself has no cycle. */
  lemma RepeatedIdAcyclic()
    ensures !Distinct(["A", "A"]) && !HasCycle(["A", "A"], [])
  {
    assert !Distinct(["A", "A"]) by { assert ["A", "A"][0] == ["A", "A"][1]; }
    forall w ensures !IsCycle(["A", "A"], [], w) {
      if |w| >= 2 {
        assert !IsEdge(["A", "A"], [], w[0], w[1]);
      }
    }
  }
}
