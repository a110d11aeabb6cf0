/**
 * The graph vocabulary shared by the two cycle detectors of the pipeline
 * backend: node ids, edges, the adjacency view built from them, and the
 * independent notion of a directed cycle that every detector is proved
 * against.
 */
module Graphs {

  /** A pipeline node is referenced only by its identifier. */
  type NodeId = string

  /** A directed dependency `source -> target`, as supplied by the caller. */
  datatype Edge = Edge(source: NodeId, target: NodeId)

  datatype Option<T> = None | Some(value: T)

  /** The edges that take part in a detection: both endpoints are declared.
      Edges with an undeclared endpoint are simply not edges of the graph. */
  predicate IsEdge(nodes: seq<NodeId>, edges: seq<Edge>, u: NodeId, v: NodeId) {
    u in nodes && v in nodes && Edge(u, v) in edges
  }

  /** Every consecutive pair of `w` is an edge of the graph. */
  ghost predicate IsWalk(nodes: seq<NodeId>, edges: seq<Edge>, w: seq<NodeId>) {
    forall i :: 0 <= i < |w| - 1 ==> IsEdge(nodes, edges, w[i], w[i + 1])
  }

  /** A closed walk: the shape of a reported cycle, such as `[A, A]` for a self-loop. */
  ghost predicate IsCycle(nodes: seq<NodeId>, edges: seq<Edge>, w: seq<NodeId>) {
    |w| >= 2 && w[0] == w[|w| - 1] && IsWalk(nodes, edges, w)
  }

  ghost predicate HasCycle(nodes: seq<NodeId>, edges: seq<Edge>) {
    exists w :: IsCycle(nodes, edges, w)
  }

  /** No entry of `s` occurs twice. */
  predicate Distinct(s: seq<NodeId>) {
    forall i, j :: 0 <= i < j < |s| ==> s[i] != s[j]
  }

  /** A cycle that visits no node twice before returning to its start. */
  ghost predicate IsSimpleCycle(nodes: seq<NodeId>, edges: seq<Edge>, w: seq<NodeId>) {
    IsCycle(nodes, edges, w) && Distinct(w[..|w| - 1])
  }

  // ---------------------------------------------------------------------
  // The adjacency view

  /** The valid targets of `u`, in the order their edges were supplied. */
  function Successors(nodes: seq<NodeId>, edges: seq<Edge>, u: NodeId): seq<NodeId>
    decreases |edges|
  {
    if edges == [] then []
    else
      var e := edges[|edges| - 1];
      Successors(nodes, edges[..|edges| - 1], u)
        + (if e.source == u && e.source in nodes && e.target in nodes then [e.target] else [])
  }

  /** One neighbour list per declared node. */
  function Adjacency(nodes: seq<NodeId>, edges: seq<Edge>): map<NodeId, seq<NodeId>> {
    map u | u in nodes :: Successors(nodes, edges, u)
  }

  /** A neighbour list holds exactly the valid targets of its node. */
  lemma {:induction false} SuccessorsAreEdges(nodes: seq<NodeId>, edges: seq<Edge>, u: NodeId, v: NodeId)
    ensures v in Successors(nodes, edges, u) <==> IsEdge(nodes, edges, u, v)
    decreases |edges|
  {
    if edges != [] {
      var init, e := edges[..|edges| - 1], edges[|edges| - 1];
      assert edges == init + [e];
      SuccessorsAreEdges(nodes, init, u, v);
    }
  }

  /** Consequence for the whole view: its keys are the declared nodes and its
      entries are exactly the graph's edges, so it never names an undeclared node. */
  lemma AdjacencyIsEdgeRelation(nodes: seq<NodeId>, edges: seq<Edge>)
    ensures forall u :: u in Adjacency(nodes, edges) <==> u in nodes
    ensures forall u, v :: u in nodes ==>
              (v in Adjacency(nodes, edges)[u] <==> IsEdge(nodes, edges, u, v))
    ensures forall u, v {:trigger v in Adjacency(nodes, edges)[u]} ::
              u in Adjacency(nodes, edges) && v in Adjacency(nodes, edges)[u] ==>
              v in Adjacency(nodes, edges)
  {
    forall u, v | u in nodes
      ensures v in Adjacency(nodes, edges)[u] <==> IsEdge(nodes, edges, u, v)
    {
      SuccessorsAreEdges(nodes, edges, u, v);
    }
  }

  /** One more supplied edge extends its source's list, when both its
      endpoints are declared, and changes nothing otherwise. */
  lemma AdjacencyStep(nodes: seq<NodeId>, edges: seq<Edge>, i: nat)
    requires i < |edges|
    ensures var e, before := edges[i], Adjacency(nodes, edges[..i]);
            Adjacency(nodes, edges[..i + 1])
            == if e.source in nodes && e.target in nodes then before[e.source := before[e.source] + [e.target]] else before
  {
    var e, before := edges[i], Adjacency(nodes, edges[..i]);
    assert edges[..i + 1][..i] == edges[..i];
    forall u | u in nodes
      ensures Successors(nodes, edges[..i + 1], u)
           == Successors(nodes, edges[..i], u) + (if e.source == u && e.source in nodes && e.target in nodes then [e.target] else [])
    {
    }
    var after := if e.source in nodes && e.target in nodes then before[e.source := before[e.source] + [e.target]] else before;
    assert after.Keys == Adjacency(nodes, edges[..i + 1]).Keys;
    forall u | u in nodes ensures Adjacency(nodes, edges[..i + 1])[u] == after[u] {
    }
  }

  /** Neighbour lists keep the supplied edge order: the edges of a
      concatenated list contribute in the order of the two parts. */
  lemma {:induction false} SuccessorsAppend(nodes: seq<NodeId>, first: seq<Edge>, second: seq<Edge>, u: NodeId)
    ensures Successors(nodes, first + second, u)
         == Successors(nodes, first, u) + Successors(nodes, second, u)
    decreases |second|
  {
    if second == [] {
      assert first + second == first;
    } else {
      var init, e := second[..|second| - 1], second[|second| - 1];
      assert (first + second)[..|first + second| - 1] == first + init;
      SuccessorsAppend(nodes, first, init, u);
    }
  }

  /** An edge with an undeclared endpoint changes neither the adjacency view
      nor whether the graph has a cycle. */
  lemma DanglingEdgeIgnored(nodes: seq<NodeId>, edges: seq<Edge>, e: Edge)
    requires e.source !in nodes || e.target !in nodes
    ensures Adjacency(nodes, edges + [e]) == Adjacency(nodes, edges)
    ensures HasCycle(nodes, edges + [e]) <==> HasCycle(nodes, edges)
  {
    assert (edges + [e])[..|edges + [e]| - 1] == edges;
    forall u | u in nodes ensures Successors(nodes, edges + [e], u) == Successors(nodes, edges, u) { }
    assert Adjacency(nodes, edges + [e]) == Adjacency(nodes, edges);
    forall u, v ensures IsEdge(nodes, edges + [e], u, v) <==> IsEdge(nodes, edges, u, v) {
      assert Edge(u, v) in edges + [e] <==> Edge(u, v) in edges || Edge(u, v) == e;
    }
    if HasCycle(nodes, edges + [e]) {
      var w :| IsCycle(nodes, edges + [e], w);
      assert IsCycle(nodes, edges, w);
    }
    if HasCycle(nodes, edges) {
      var w :| IsCycle(nodes, edges, w);
      assert IsCycle(nodes, edges + [e], w);
    }
  }

  // ---------------------------------------------------------------------
  // Cycles, walks and rankings

  /** A back edge from the end of a walk to one of its nodes closes a cycle:
      the suffix from that node with the node appended again. */
  lemma ClosingWalk(nodes: seq<NodeId>, edges: seq<Edge>, p: seq<NodeId>, k: nat)
    requires IsWalk(nodes, edges, p)
    requires k < |p|
    requires IsEdge(nodes, edges, p[|p| - 1], p[k])
    ensures IsCycle(nodes, edges, p[k..] + [p[k]])
    ensures Distinct(p) ==> IsSimpleCycle(nodes, edges, p[k..] + [p[k]])
  {
    var c := p[k..] + [p[k]];
    assert c[..|c| - 1] == p[k..];
    forall i | 0 <= i < |c| - 1 ensures IsEdge(nodes, edges, c[i], c[i + 1]) {
      if i < |c| - 2 {
        assert c[i] == p[k + i] && c[i + 1] == p[k + i + 1];
      }
    }
  }

  /** `rank` strictly decreases along every edge. */
  ghost predicate Ranked(nodes: seq<NodeId>, edges: seq<Edge>, rank: map<NodeId, int>) {
    forall u, v :: IsEdge(nodes, edges, u, v) ==> u in rank && v in rank && rank[v] < rank[u]
  }

  lemma {:induction false} RankDescends(nodes: seq<NodeId>, edges: seq<Edge>, rank: map<NodeId, int>, w: seq<NodeId>)
    requires Ranked(nodes, edges, rank)
    requires |w| >= 2 && IsWalk(nodes, edges, w)
    ensures w[0] in rank && w[|w| - 1] in rank && rank[w[|w| - 1]] < rank[w[0]]
    decreases |w|
  {
    assert IsEdge(nodes, edges, w[0], w[1]);
    if |w| > 2 {
      var rest := w[1..];
      assert IsWalk(nodes, edges, rest) by {
        forall i | 0 <= i < |rest| - 1 ensures IsEdge(nodes, edges, rest[i], rest[i + 1]) {
          assert rest[i] == w[i + 1] && rest[i + 1] == w[i + 2];
        }
      }
      RankDescends(nodes, edges, rank, rest);
    }
  }

  /** A graph whose nodes can be ranked so that every edge goes down has no cycle. */
  lemma NoCycleWhenRanked(nodes: seq<NodeId>, edges: seq<Edge>, rank: map<NodeId, int>)
    requires Ranked(nodes, edges, rank)
    ensures !HasCycle(nodes, edges)
  {
    if HasCycle(nodes, edges) {
      var w :| IsCycle(nodes, edges, w);
      RankDescends(nodes, edges, rank, w);
    }
  }

  // ---------------------------------------------------------------------
  // Sizes of sets of nodes

  /** Removing a member and possibly more makes a set strictly smaller. */
  lemma SubsetWithoutIsSmaller(small: set<NodeId>, big: set<NodeId>, x: NodeId)
    requires x in big && small <= big - {x}
    ensures |small| < |big|
  {
    var rest := big - {x};
    assert rest == small + (rest - small);
    assert big == rest + {x};
  }

  /** A subset is no larger than its superset. */
  lemma SubsetCard(small: set<NodeId>, big: set<NodeId>)
    requires small <= big
    ensures |small| <= |big|
  {
    if small != big {
      var x :| x in big && x !in small;
      SubsetWithoutIsSmaller(small, big, x);
    }
  }

  /** A subset at least as large as its superset is the whole superset. */
  lemma SubsetSameSize(small: set<NodeId>, big: set<NodeId>)
    requires small <= big && |small| >= |big|
    ensures small == big
  {
    if small != big {
      var x :| x in big && x !in small;
      SubsetWithoutIsSmaller(small, big, x);
    }
  }
}
