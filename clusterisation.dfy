/** Spanning trees and clusters of a weighted graph: the total weight, two
    Prim-style spanning trees and the split into clusters by deleting the
    heaviest tree edges. */
module Clusterisation {
  import opened Wrappers
  import opened Graphs

  /** get_graph_weight: the weights of graph.edges added up. That list holds
      each undirected edge once (Graphs.EdgeListOnce, Graphs.EdgeListNoDuplicates). */
  method GraphWeight(g: Graph) returns (weight: int)
    ensures weight == TotalWeight(EdgeList(g))
  {
    weight := 0;
    var es := EdgeList(g);
    for k := 0 to |es|
      invariant weight == TotalWeight(es[..k])
    {
      assert es[..k + 1][..k] == es[..k];
      weight := weight + es[k].weight;
    }
    assert es[..|es|] == es;
  }

  /** An edge from the set s to a node outside it. */
  predicate Crossing(g: Graph, s: set<int>, e: Edge)
  {
    HasEdge(g, e) && e.u in s && e.v !in s
  }

  /** A crossing edge of least weight. */
  ghost predicate LightestCrossing(g: Graph, s: set<int>, e: Edge)
  {
    Crossing(g, s, e) && forall f :: Crossing(g, s, f) ==> e.weight <= f.weight
  }

  /** min(edges, key=weight): the first edge of least weight. */
  function Lightest(es: seq<Edge>): (e: Edge)
    requires es != []
    ensures e in es && forall f :: f in es ==> e.weight <= f.weight
  {
    if |es| == 1 then es[0]
    else
      var m := Lightest(es[1..]);
      assert forall f :: f in es ==> f == es[0] || f in es[1..];
      if es[0].weight <= m.weight then es[0] else m
  }

  /** The loops that collect possible_edges: every edge from a visited node
      to a neighbour not yet visited. Set and dict iteration order is left
      open. */
  method CrossingEdges(g: Graph, visited: set<int>) returns (possible: seq<Edge>)
    requires visited <= g.adj.Keys
    ensures forall e :: e in possible <==> Crossing(g, visited, e)
  {
    possible := [];
    var todo := visited;
    while todo != {}
      invariant todo <= visited
      invariant forall e :: e in possible <==> Crossing(g, visited, e) && e.u !in todo
      decreases todo
    {
      Inhabited(todo);
      var x :| x in todo;
      var rest := g.adj[x].Keys;
      while rest != {}
        invariant rest <= g.adj[x].Keys
        invariant forall e :: e in possible <==> Crossing(g, visited, e) && (e.u !in todo || (e.u == x && e.v !in rest))
        decreases rest
      {
        Inhabited(rest);
        var y :| y in rest;
        if y !in visited {
          possible := possible + [Edge(x, y, g.adj[x][y])];
        }
        rest := rest - {y};
      }
      todo := todo - {x};
    }
  }

  /** Every edge of the tree, when it was added, was a lightest edge out
      of the nodes reached so far. */
  ghost predicate PrimOrder(g: Graph, start: int, tree: seq<Edge>)
  {
    forall k :: 0 <= k < |tree| ==> LightestCrossing(g, Reached(start, tree[..k]), tree[k])
  }

  /** get_minimum_spanning_tree. The random start node is nodes[pick] for
      an arbitrary `pick`; `tree` lists the edges in the order add_edge was
      called on the result. */
  method MinimumSpanningTree(g: Graph, pick: nat) returns (r: Result<Graph>, ghost tree: seq<Edge>)
    requires Valid(g)
    ensures g.nodes == [] ==> r.Error?
    ensures r.Error? && g.nodes != [] ==> Disconnected(g)
    ensures r.Ok? ==> g.nodes != [] && r.value == AddEdges(Empty, tree)
    ensures r.Ok? ==> Grows(g, g.nodes[pick % |g.nodes|], tree) && PrimOrder(g, g.nodes[pick % |g.nodes|], tree)
    ensures r.Ok? ==> Reached(g.nodes[pick % |g.nodes|], tree) == g.adj.Keys && |tree| == |g.nodes| - 1
    ensures r.Ok? ==> Valid(r.value) && Subgraph(r.value, g)
  {
    tree := [];
    if g.nodes == [] {
      return Error, tree;
    }
    var start := g.nodes[pick % |g.nodes|];
    var visited := {start};
    var mst := Empty;
    NodeCount(g);
    while |visited| < |g.nodes|
      invariant visited == Reached(start, tree) && visited <= g.adj.Keys && |visited| == |tree| + 1
      invariant Grows(g, start, tree) && PrimOrder(g, start, tree)
      invariant mst == AddEdges(Empty, tree)
      decreases |g.nodes| - |visited|
    {
      var possible := CrossingEdges(g, visited);
      if possible == [] {
        ClosedWhenNoCrossing(g, visited);
        return Error, tree;
      }
      var minEdge := Lightest(possible);
      mst := AddEdge(mst, minEdge);
      PrimStep(g, start, tree, minEdge);
      Symmetric(g, minEdge.u, minEdge.v);
      AddNewNode(visited, minEdge.v);
      AddEdgesSnoc(Empty, tree, minEdge);
      tree := tree + [minEdge];
      visited := visited + {minEdge.v};
    }
    AllReached(g, visited);
    AddEdgesSubgraph(Empty, tree, g);
    r := Ok(mst);
  }

  lemma ClosedWhenNoCrossing(g: Graph, visited: set<int>)
    requires Valid(g) && visited != {} && visited <= g.adj.Keys && |visited| < |g.nodes|
    requires forall e :: !Crossing(g, visited, e)
    ensures Disconnected(g)
  {
    NodeCount(g);
    forall u, v | u in visited && u in g.adj && v in g.adj[u]
      ensures v in visited
    {
      assert !Crossing(g, visited, Edge(u, v, g.adj[u][v]));
    }
    assert Closed(g, visited);
  }

  lemma PrimStep(g: Graph, start: int, tree: seq<Edge>, e: Edge)
    requires Grows(g, start, tree) && PrimOrder(g, start, tree)
    requires LightestCrossing(g, Reached(start, tree), e)
    ensures Grows(g, start, tree + [e]) && PrimOrder(g, start, tree + [e])
    ensures Reached(start, tree + [e]) == Reached(start, tree) + {e.v}
  {
    GrowsAppend(g, start, tree, e);
    var t := tree + [e];
    assert t[..|tree|] == tree;
    forall k | 0 <= k < |t|
      ensures LightestCrossing(g, Reached(start, t[..k]), t[k])
    {
      if k < |tree| {
        assert t[..k] == tree[..k];
      }
    }
  }

  lemma AllReached(g: Graph, visited: set<int>)
    requires Valid(g) && visited <= g.adj.Keys && |visited| >= |g.nodes|
    ensures visited == g.adj.Keys
  {
    NodeCount(g);
    var d := g.adj.Keys - visited;
    assert g.adj.Keys == visited + d && visited * d == {};
    assert |g.adj.Keys| == |visited| + |d|;
    assert d == {};
  }

  /** v is a lightest neighbour of n. */
  ghost predicate LightestAt(g: Graph, n: int, v: int)
    requires n in g.adj
  {
    v in g.adj[n] && forall y :: y in g.adj[n] ==> g.adj[n][v] <= g.adj[n][y]
  }

  /** graph.edges(node): the edges at `node`, in an order left open. */
  method IncidentEdges(g: Graph, node: int) returns (es: seq<Edge>)
    requires node in g.adj
    ensures forall e :: e in es <==> e.u == node && HasEdge(g, e)
    ensures es == [] <==> g.adj[node].Keys == {}
  {
    es := [];
    var rest := g.adj[node].Keys;
    while rest != {}
      invariant rest <= g.adj[node].Keys
      invariant forall e :: e in es <==> e.u == node && HasEdge(g, e) && e.v !in rest
      invariant |es| + |rest| == |g.adj[node].Keys|
      decreases rest
    {
      Inhabited(rest);
      var y :| y in rest;
      es := es + [Edge(node, y, g.adj[node][y])];
      rest := rest - {y};
    }
  }

  /** get_minimum_spanning_tree_short: for every node in order, its
      lightest incident edge; then all those edges and all the nodes go
      into a new graph. A node without edges makes min() raise. */
  method MinimumSpanningTreeShort(g: Graph) returns (r: Result<Graph>)
    requires Valid(g)
    ensures r.Error? <==> exists n :: n in g.adj && g.adj[n].Keys == {}
    ensures r.Ok? ==> Valid(r.value) && Subgraph(r.value, g) && (forall n :: n in r.value.adj <==> n in g.adj)
    ensures r.Ok? ==> forall n :: n in g.adj ==> exists v :: v in r.value.adj[n] && LightestAt(g, n, v)
    ensures r.Ok? ==> forall e :: HasEdge(r.value, e) ==>
      (e.u in g.adj && LightestAt(g, e.u, e.v)) || (e.v in g.adj && LightestAt(g, e.v, e.u))
  {
    var edges: seq<Edge> := [];
    var nodes: seq<int> := [];
    for i := 0 to |g.nodes|
      invariant nodes == g.nodes[..i] && |edges| == i
      invariant forall k :: 0 <= k < i ==> edges[k].u == g.nodes[k] && HasEdge(g, edges[k])
      invariant forall k :: 0 <= k < i ==> LightestAt(g, g.nodes[k], edges[k].v)
    {
      var node := g.nodes[i];
      nodes := nodes + [node];
      var connected := IncidentEdges(g, node);
      if connected == [] {
        return Error;
      }
      var minEdge := Lightest(connected);
      forall y | y in g.adj[node]
        ensures g.adj[node][minEdge.v] <= g.adj[node][y]
      {
        assert Edge(node, y, g.adj[node][y]) in connected;
      }
      edges := edges + [minEdge];
    }
    assert nodes == g.nodes;
    r := Ok(ShortTree(g, edges, nodes));
  }

  /** The graph get_minimum_spanning_tree_short returns, and what it holds
      when every node's edge is one of its lightest. */
  function ShortTree(g: Graph, edges: seq<Edge>, nodes: seq<int>): (r: Graph)
    requires Valid(g) && nodes == g.nodes && |edges| == |nodes|
    requires forall k :: 0 <= k < |edges| ==> edges[k].u == g.nodes[k] && HasEdge(g, edges[k])
    requires forall k :: 0 <= k < |edges| ==> LightestAt(g, g.nodes[k], edges[k].v)
    ensures Valid(r) && Subgraph(r, g) && (forall n :: n in r.adj <==> n in g.adj)
    ensures forall n :: n in g.adj ==> exists v :: v in r.adj[n] && LightestAt(g, n, v)
    ensures forall n :: n in g.adj ==> g.adj[n].Keys != {}
    ensures forall e :: HasEdge(r, e) ==> (e.u in g.adj && LightestAt(g, e.u, e.v)) || (e.v in g.adj && LightestAt(g, e.v, e.u))
  {
    var h := AddEdges(Empty, edges);
    ShortTreeEdges(g, edges);
    AddEdgesSubgraph(Empty, edges, g);
    AddNodesValid(h, nodes);
    var r := AddNodes(h, nodes);
    forall e | HasEdge(r, e)
      ensures HasEdge(g, e) && HasEdge(h, e)
    {
      assert e.u in h.adj;
    }
    forall n | n in g.adj
      ensures (exists v :: v in r.adj[n] && LightestAt(g, n, v)) && g.adj[n].Keys != {}
    {
      var k := IndexOf(g.nodes, n);
      assert HasEdge(h, edges[k]);
      assert edges[k].v in r.adj[n];
    }
    r
  }

  /** The graph of the collected edges holds nothing but them: each of its
      edges is, from one of its ends, a lightest edge of g. */
  lemma ShortTreeEdges(g: Graph, edges: seq<Edge>)
    requires Valid(g) && |edges| == |g.nodes|
    requires forall k :: 0 <= k < |edges| ==> edges[k].u == g.nodes[k] && HasEdge(g, edges[k])
    requires forall k :: 0 <= k < |edges| ==> LightestAt(g, g.nodes[k], edges[k].v)
    ensures forall e :: HasEdge(AddEdges(Empty, edges), e) ==>
      (e.u in g.adj && LightestAt(g, e.u, e.v)) || (e.v in g.adj && LightestAt(g, e.v, e.u))
  {
    AddEdgesEnds(Empty, edges);
    forall e | HasEdge(AddEdges(Empty, edges), e)
      ensures (e.u in g.adj && LightestAt(g, e.u, e.v)) || (e.v in g.adj && LightestAt(g, e.v, e.u))
    {
      var k :| 0 <= k < |edges| && SameEnds(edges[k], e);
      assert g.nodes[k] in g.nodes;
    }
  }

  /** get_clusters: the tree's edges heaviest first; the first
      n_clusters - 1 of them are removed from a copy, raising IndexError
      when there are fewer. The clusters are the connected components of
      the returned copy. */
  method GetClusters(tree: Graph, nClusters: int) returns (r: Result<Graph>)
    requires Valid(tree)
    ensures r.Error? <==> nClusters - 1 > |EdgeList(tree)|
    ensures r.Ok? ==> nClusters - 1 <= |EdgeList(tree)|
    ensures r.Ok? ==> PrunedBy(tree, r.value, SortedEdges(tree)[..if nClusters < 1 then 0 else nClusters - 1])
    ensures r.Ok? ==> forall e, j :: HasEdge(r.value, e) && 0 <= j < nClusters - 1 ==> e.weight <= SortedEdges(tree)[j].weight
  {
    var sortedEdges := SortedEdges(tree);
    SortedEdgesListed(tree);
    var copyTree := tree;
    var count := if nClusters < 1 then 0 else nClusters - 1;
    for i := 0 to count
      invariant i <= |sortedEdges| && PrunedBy(tree, copyTree, sortedEdges[..i])
    {
      if i >= |sortedEdges| {
        return Error;
      }
      PruneStep(tree, copyTree, i);
      copyTree := RemoveEdge(copyTree, sortedEdges[i].u, sortedEdges[i].v);
    }
    PrunedHeaviest(tree, copyTree, count);
    r := Ok(copyTree);
  }
}
