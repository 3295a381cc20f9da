/** A weighted undirected graph as networkx.Graph keeps it: the nodes in
    insertion order and, for every node, its neighbours with the "weight"
    of the edge. Node labels are integers. */
module Graphs {

  datatype Edge = Edge(u: int, v: int, weight: int)

  datatype Graph = Graph(nodes: seq<int>, adj: map<int, map<int, int>>)

  predicate Distinct(s: seq<int>)
  {
    forall i, j :: 0 <= i < j < |s| ==> s[i] != s[j]
  }

  /** The node list and the adjacency agree, and every edge is seen from
      both ends with the same weight. */
  predicate Valid(g: Graph)
  {
    Distinct(g.nodes) && (forall n :: n in g.nodes ==> n in g.adj) && (forall n :: n in g.adj ==> n in g.nodes) &&
    forall u, v :: u in g.adj && v in g.adj[u] ==> v in g.adj && u in g.adj[v] && g.adj[v][u] == g.adj[u][v]
  }

  lemma Symmetric(g: Graph, u: int, v: int)
    requires Valid(g) && u in g.adj && v in g.adj[u]
    ensures v in g.adj && u in g.adj[v] && g.adj[v][u] == g.adj[u][v] && u in g.nodes && v in g.nodes
  {
  }

  /** The edge e, with its weight, is in g. */
  predicate HasEdge(g: Graph, e: Edge)
  {
    e.u in g.adj && e.v in g.adj[e.u] && g.adj[e.u][e.v] == e.weight
  }

  /** The same unordered pair of endpoints. */
  predicate SameEnds(e: Edge, f: Edge)
  {
    (e.u == f.u && e.v == f.v) || (e.u == f.v && e.v == f.u)
  }

  function IndexOf(s: seq<int>, x: int): (i: nat)
    requires x in s
    ensures i < |s| && s[i] == x && x !in s[..i]
  {
    if s[0] == x then 0 else 1 + IndexOf(s[1..], x)
  }

  lemma IndexOfDistinct(s: seq<int>, i: nat)
    requires Distinct(s) && i < |s|
    ensures IndexOf(s, s[i]) == i
  {
  }

  // ---------------------------------------------------------------------
  // graph.edges: every node in order, then those of its neighbours not
  // listed before it (networkx skips a neighbour it has already passed).

  /** The edges from nodes[i] to nodes[j..]. */
  function Row(g: Graph, i: nat, j: nat): seq<Edge>
    requires i < |g.nodes| && j <= |g.nodes|
    decreases |g.nodes| - j
  {
    if j == |g.nodes| then []
    else
      var u, v := g.nodes[i], g.nodes[j];
      (if u in g.adj && v in g.adj[u] then [Edge(u, v, g.adj[u][v])] else []) + Row(g, i, j + 1)
  }

  function Rows(g: Graph, i: nat): seq<Edge>
    requires i <= |g.nodes|
    decreases |g.nodes| - i
  {
    if i == |g.nodes| then [] else Row(g, i, i) + Rows(g, i + 1)
  }

  /** graph.edges(data=True), each undirected edge once. */
  function EdgeList(g: Graph): seq<Edge>
  {
    Rows(g, 0)
  }

  lemma {:induction false} RowMembers(g: Graph, i: nat, j: nat, e: Edge)
    requires Valid(g) && i < |g.nodes| && j <= |g.nodes|
    ensures e in Row(g, i, j) <==> e.u == g.nodes[i] && HasEdge(g, e) && (assert e.v in g.adj; j <= IndexOf(g.nodes, e.v))
    decreases |g.nodes| - j
  {
    if j < |g.nodes| {
      RowMembers(g, i, j + 1, e);
      IndexOfDistinct(g.nodes, j);
      if HasEdge(g, e) {
        Symmetric(g, e.u, e.v);
        if IndexOf(g.nodes, e.v) == j {
          assert e.v == g.nodes[j];
        }
      }
    }
  }

  lemma {:induction false} RowsMembers(g: Graph, i: nat, e: Edge)
    requires Valid(g) && i <= |g.nodes|
    ensures e in Rows(g, i) <==> HasEdge(g, e) && (assert e.v in g.adj; i <= IndexOf(g.nodes, e.u) <= IndexOf(g.nodes, e.v))
    decreases |g.nodes| - i
  {
    if i < |g.nodes| {
      RowsMembers(g, i + 1, e);
      RowMembers(g, i, i, e);
      RowsLevel(g, i, e);
    }
  }

  /** Rows(g, i) from row i and the later rows. */
  lemma RowsLevel(g: Graph, i: nat, e: Edge)
    requires Valid(g) && i < |g.nodes|
    requires e in Row(g, i, i) <==> e.u == g.nodes[i] && HasEdge(g, e) && (assert e.v in g.adj; i <= IndexOf(g.nodes, e.v))
    requires e in Rows(g, i + 1) <==> HasEdge(g, e) && (assert e.v in g.adj; i + 1 <= IndexOf(g.nodes, e.u) <= IndexOf(g.nodes, e.v))
    ensures e in Rows(g, i) <==> HasEdge(g, e) && (assert e.v in g.adj; i <= IndexOf(g.nodes, e.u) <= IndexOf(g.nodes, e.v))
  {
    assert Rows(g, i) == Row(g, i, i) + Rows(g, i + 1);
    if HasEdge(g, e) {
      Symmetric(g, e.u, e.v);
      IndexOfDistinct(g.nodes, i);
      RowsStep(Row(g, i, i), Rows(g, i + 1), e, i, IndexOf(g.nodes, e.u), IndexOf(g.nodes, e.v));
    }
  }

  /** Row i followed by the later rows holds e exactly when e starts at a
      node of index at least i and ends no earlier. */
  lemma RowsStep(row: seq<Edge>, rest: seq<Edge>, e: Edge, i: nat, a: nat, b: nat)
    requires e in row <==> a == i && i <= b
    requires e in rest <==> i + 1 <= a <= b
    ensures e in row + rest <==> i <= a <= b
  {
  }

  /** graph.edges lists exactly the edges of g, each from the endpoint
      inserted first. */
  lemma EdgeListMembers(g: Graph, e: Edge)
    requires Valid(g)
    ensures e in EdgeList(g) <==> HasEdge(g, e) && (assert e.v in g.adj; IndexOf(g.nodes, e.u) <= IndexOf(g.nodes, e.v))
  {
    RowsMembers(g, 0, e);
  }

  /** Every undirected edge is listed in exactly one direction. */
  lemma EdgeListOnce(g: Graph, u: int, v: int)
    requires Valid(g) && u != v && u in g.adj && v in g.adj[u]
    ensures Edge(u, v, g.adj[u][v]) in EdgeList(g) <==> Edge(v, u, g.adj[u][v]) !in EdgeList(g)
  {
    var w := g.adj[u][v];
    EdgeListMembers(g, Edge(u, v, w));
    EdgeListMembers(g, Edge(v, u, w));
    var iu, iv := IndexOf(g.nodes, u), IndexOf(g.nodes, v);
    assert iu != iv;
  }

  predicate NoDuplicates(es: seq<Edge>)
  {
    forall i, j :: 0 <= i < j < |es| ==> es[i] != es[j]
  }

  lemma {:induction false} RowNoDuplicates(g: Graph, i: nat, j: nat)
    requires Valid(g) && i < |g.nodes| && j <= |g.nodes|
    ensures NoDuplicates(Row(g, i, j)) && forall e :: e in Row(g, i, j) ==> e.v in g.nodes[j..]
    decreases |g.nodes| - j
  {
    if j < |g.nodes| {
      RowNoDuplicates(g, i, j + 1);
      assert g.nodes[j] !in g.nodes[j + 1..] by {
        forall k | j + 1 <= k < |g.nodes|
          ensures g.nodes[k] != g.nodes[j]
        {
        }
      }
      forall e | e in Row(g, i, j)
        ensures e.v in g.nodes[j..]
      {
        if e in Row(g, i, j + 1) {
          assert g.nodes[j + 1..] == g.nodes[j..][1..];
        }
      }
    }
  }

  lemma {:induction false} RowsNoDuplicates(g: Graph, i: nat)
    requires Valid(g) && i <= |g.nodes|
    ensures NoDuplicates(Rows(g, i)) && forall e :: e in Rows(g, i) ==> e.u in g.nodes[i..]
    decreases |g.nodes| - i
  {
    if i < |g.nodes| {
      RowsNoDuplicates(g, i + 1);
      RowNoDuplicates(g, i, i);
      var row, rest := Row(g, i, i), Rows(g, i + 1);
      forall e | e in row
        ensures e.u == g.nodes[i]
      {
        RowMembers(g, i, i, e);
      }
      assert g.nodes[i] !in g.nodes[i + 1..] by {
        forall k | i + 1 <= k < |g.nodes|
          ensures g.nodes[k] != g.nodes[i]
        {
        }
      }
      forall a, b | 0 <= a < b < |row + rest|
        ensures (row + rest)[a] != (row + rest)[b]
      {
        if a < |row| && b >= |row| {
          assert (row + rest)[a] in row && (row + rest)[b] in rest;
        }
      }
      forall e | e in row + rest
        ensures e.u in g.nodes[i..]
      {
        assert g.nodes[i + 1..] == g.nodes[i..][1..];
      }
    }
  }

  /** No edge is listed twice. */
  lemma EdgeListNoDuplicates(g: Graph)
    requires Valid(g)
    ensures NoDuplicates(EdgeList(g))
  {
    RowsNoDuplicates(g, 0);
  }

  /** Every edge of g is listed, in one of its two directions. */
  lemma EdgeListed(g: Graph, e: Edge)
    requires Valid(g) && HasEdge(g, e)
    ensures e in EdgeList(g) || Edge(e.v, e.u, e.weight) in EdgeList(g)
  {
    Symmetric(g, e.u, e.v);
    EdgeListMembers(g, e);
    EdgeListMembers(g, Edge(e.v, e.u, e.weight));
  }

  /** Two listed edges with the same endpoints are the same entry. */
  lemma EdgeListPairs(g: Graph, a: Edge, b: Edge)
    requires Valid(g) && a in EdgeList(g) && b in EdgeList(g) && SameEnds(a, b)
    ensures a == b
  {
    EdgeListMembers(g, a);
    EdgeListMembers(g, b);
    Symmetric(g, a.u, a.v);
  }

  /** The sum of the weights. */
  function TotalWeight(es: seq<Edge>): int
  {
    if es == [] then 0 else TotalWeight(es[..|es| - 1]) + es[|es| - 1].weight
  }

  // ---------------------------------------------------------------------
  // Building and changing a graph

  const Empty := Graph([], map[])

  /** add_node: a node already present is left as it is. */
  function AddNode(g: Graph, n: int): (r: Graph)
    ensures Valid(g) ==> Valid(r)
    ensures forall x :: x in r.adj <==> x in g.adj || x == n
    ensures forall x :: x in g.adj ==> r.adj[x] == g.adj[x]
    ensures n !in g.adj ==> r.adj[n] == map[]
  {
    if n in g.adj then g else Graph(g.nodes + [n], g.adj[n := map[]])
  }

  /** The weight w set on the edge e seen from both ends. */
  function Link(adj: map<int, map<int, int>>, e: Edge): map<int, map<int, int>>
    requires e.u in adj && e.v in adj
  {
    var a := adj[e.u := adj[e.u][e.v := e.weight]];
    a[e.v := a[e.v][e.u := e.weight]]
  }

  lemma LinkEntry(adj: map<int, map<int, int>>, e: Edge, x: int, y: int)
    requires e.u in adj && e.v in adj && x in adj
    ensures forall z :: z in Link(adj, e) <==> z in adj
    ensures y in Link(adj, e)[x] <==> y in adj[x] || SameEnds(e, Edge(x, y, 0))
    ensures y in Link(adj, e)[x] ==> Link(adj, e)[x][y] == if SameEnds(e, Edge(x, y, 0)) then e.weight else adj[x][y]
  {
  }

  /** add_edge(u, v, weight=w): adds the missing endpoints and sets the
      weight seen from both ends, replacing an earlier one. */
  function AddEdge(g: Graph, e: Edge): (r: Graph)
    ensures forall x :: x in r.adj <==> x in g.adj || x == e.u || x == e.v
  {
    var h := AddNode(AddNode(g, e.u), e.v);
    assert e.u in h.adj && e.v in h.adj;
    LinkEntry(h.adj, e, e.u, e.v);
    Graph(h.nodes, Link(h.adj, e))
  }

  lemma AddEdgeValid(g: Graph, e: Edge)
    requires Valid(g)
    ensures Valid(AddEdge(g, e))
  {
    var h := AddNode(AddNode(g, e.u), e.v);
    var r := AddEdge(g, e);
    assert r.adj == Link(h.adj, e);
    forall x, y | x in r.adj && y in r.adj[x]
      ensures y in r.adj && x in r.adj[y] && r.adj[y][x] == r.adj[x][y]
    {
      LinkEntry(h.adj, e, x, y);
      LinkEntry(h.adj, e, y, x);
    }
  }

  /** add_edge sets e and changes no other edge. */
  lemma AddEdgeAdjacency(g: Graph, e: Edge)
    requires Valid(g)
    ensures Valid(AddEdge(g, e)) && HasEdge(AddEdge(g, e), e)
    ensures forall f :: !SameEnds(e, f) ==> (HasEdge(AddEdge(g, e), f) <==> HasEdge(g, f))
    ensures forall f :: SameEnds(e, f) ==> (HasEdge(AddEdge(g, e), f) <==> f.weight == e.weight)
  {
    AddEdgeValid(g, e);
    var h := AddNode(AddNode(g, e.u), e.v);
    var r := AddEdge(g, e);
    assert r.adj == Link(h.adj, e);
    LinkEntry(h.adj, e, e.u, e.v);
    forall f | !SameEnds(e, f)
      ensures HasEdge(r, f) <==> HasEdge(g, f)
    {
      if f.u in h.adj {
        LinkEntry(h.adj, e, f.u, f.v);
      }
    }
    forall f | SameEnds(e, f)
      ensures HasEdge(r, f) <==> f.weight == e.weight
    {
      LinkEntry(h.adj, e, f.u, f.v);
    }
  }

  /** Every edge of h is an edge of g, with the same weight. */
  ghost predicate Subgraph(h: Graph, g: Graph)
  {
    forall e :: HasEdge(h, e) ==> HasEdge(g, e)
  }

  lemma AddEdgeSubgraph(h: Graph, e: Edge, g: Graph)
    requires Valid(h) && Valid(g) && Subgraph(h, g) && HasEdge(g, e)
    ensures Valid(AddEdge(h, e)) && Subgraph(AddEdge(h, e), g) && HasEdge(AddEdge(h, e), e)
    ensures forall f :: HasEdge(h, f) ==> HasEdge(AddEdge(h, e), f)
  {
    var h1 := AddEdge(h, e);
    AddEdgeAdjacency(h, e);
    Symmetric(g, e.u, e.v);
    forall f | HasEdge(h1, f)
      ensures HasEdge(g, f)
    {
    }
    forall f | HasEdge(h, f)
      ensures HasEdge(h1, f)
    {
    }
  }

  /** Adding edges of g to a subgraph of g gives a subgraph of g in which
      those edges are present; edges already there stay. */
  lemma {:induction false} AddEdgesSubgraph(h: Graph, es: seq<Edge>, g: Graph)
    requires Valid(h) && Valid(g) && Subgraph(h, g) && forall x :: x in h.adj ==> x in g.adj
    requires forall k :: 0 <= k < |es| ==> HasEdge(g, es[k])
    ensures Valid(AddEdges(h, es)) && Subgraph(AddEdges(h, es), g)
    ensures forall x :: x in AddEdges(h, es).adj ==> x in g.adj
    ensures forall e :: HasEdge(h, e) ==> HasEdge(AddEdges(h, es), e)
    ensures forall k :: 0 <= k < |es| ==> HasEdge(AddEdges(h, es), es[k])
    decreases es
  {
    if es != [] {
      var h1 := AddEdge(h, es[0]);
      AddEdgeSubgraph(h, es[0], g);
      Symmetric(g, es[0].u, es[0].v);
      AddEdgesSubgraph(h1, es[1..], g);
      var r := AddEdges(h1, es[1..]);
      assert AddEdges(h, es) == r;
      forall k | 0 <= k < |es|
        ensures HasEdge(r, es[k])
      {
        if k > 0 {
          assert es[1..][k - 1] == es[k];
        }
      }
    }
  }

  /** add_weighted_edges_from, one add_edge per edge in order. */
  function AddEdges(g: Graph, es: seq<Edge>): Graph
    decreases es
  {
    if es == [] then g else AddEdges(AddEdge(g, es[0]), es[1..])
  }

  lemma {:induction false} AddEdgesSnoc(g: Graph, es: seq<Edge>, e: Edge)
    ensures AddEdges(g, es + [e]) == AddEdge(AddEdges(g, es), e)
    decreases es
  {
    if es != [] {
      assert (es + [e])[1..] == es[1..] + [e];
      AddEdgesSnoc(AddEdge(g, es[0]), es[1..], e);
    }
  }

  /** add_nodes_from. */
  function AddNodes(g: Graph, ns: seq<int>): Graph
    decreases ns
  {
    if ns == [] then g else AddNodes(AddNode(g, ns[0]), ns[1..])
  }

  lemma {:induction false} AddEdgesValid(g: Graph, es: seq<Edge>)
    requires Valid(g)
    ensures Valid(AddEdges(g, es))
    ensures forall x :: x in g.adj ==> x in AddEdges(g, es).adj
    ensures forall e :: e in es ==> e.u in AddEdges(g, es).adj && e.v in AddEdges(g, es).adj
    decreases es
  {
    if es != [] {
      var h := AddEdge(g, es[0]);
      AddEdgeValid(g, es[0]);
      AddEdgesValid(h, es[1..]);
      var r := AddEdges(g, es);
      assert r == AddEdges(h, es[1..]);
      forall e | e in es
        ensures e.u in r.adj && e.v in r.adj
      {
        if e != es[0] {
          assert e in es[1..];
        }
      }
    }
  }

  /** add_weighted_edges_from adds no edge but the given ones: every edge
      of the result was already in g or joins the ends of one of es. */
  lemma {:induction false} AddEdgesEnds(g: Graph, es: seq<Edge>)
    requires Valid(g)
    ensures forall e :: HasEdge(AddEdges(g, es), e) ==> HasEdge(g, e) || exists k :: 0 <= k < |es| && SameEnds(es[k], e)
    decreases es
  {
    if es != [] {
      var h := AddEdge(g, es[0]);
      AddEdgeAdjacency(g, es[0]);
      AddEdgesEnds(h, es[1..]);
      assert AddEdges(g, es) == AddEdges(h, es[1..]);
      forall e | HasEdge(AddEdges(g, es), e) && !HasEdge(g, e)
        ensures exists k :: 0 <= k < |es| && SameEnds(es[k], e)
      {
        if !SameEnds(es[0], e) {
          var k :| 0 <= k < |es[1..]| && SameEnds(es[1..][k], e);
          assert SameEnds(es[k + 1], e);
        }
      }
    }
  }

  lemma {:induction false} AddNodesValid(g: Graph, ns: seq<int>)
    requires Valid(g)
    ensures Valid(AddNodes(g, ns))
    ensures forall x :: x in AddNodes(g, ns).adj <==> x in g.adj || x in ns
    ensures forall x :: x in g.adj ==> AddNodes(g, ns).adj[x] == g.adj[x]
    ensures forall x :: x in AddNodes(g, ns).adj && x !in g.adj ==> AddNodes(g, ns).adj[x] == map[]
    decreases ns
  {
    if ns != [] {
      AddNodesValid(AddNode(g, ns[0]), ns[1..]);
      assert ns == [ns[0]] + ns[1..];
    }
  }

  /** remove_edge(u, v); networkx raises when the edge is missing. */
  function RemoveEdge(g: Graph, u: int, v: int): (r: Graph)
    requires u in g.adj && v in g.adj[u]
    ensures r.nodes == g.nodes && forall x :: x in r.adj <==> x in g.adj
  {
    var a := g.adj[u := g.adj[u] - {v}];
    if v in a then Graph(g.nodes, a[v := a[v] - {u}]) else Graph(g.nodes, a)
  }

  lemma RemoveEdgeAdjacency(g: Graph, u: int, v: int)
    requires Valid(g) && u in g.adj && v in g.adj[u]
    ensures Valid(RemoveEdge(g, u, v))
    ensures forall f :: HasEdge(RemoveEdge(g, u, v), f) <==> HasEdge(g, f) && !SameEnds(f, Edge(u, v, 0))
  {
    var r := RemoveEdge(g, u, v);
    forall x, y | x in r.adj && y in r.adj[x]
      ensures y in r.adj && x in r.adj[y] && r.adj[y][x] == r.adj[x][y]
    {
      assert y in g.adj[x];
    }
  }

  // ---------------------------------------------------------------------
  // sorted(edges, key=weight, reverse=True): a stable sort, heaviest first

  predicate NonIncreasing(es: seq<Edge>)
  {
    forall i, j :: 0 <= i < j < |es| ==> es[i].weight >= es[j].weight
  }

  /** Places e before the first edge that is not heavier. */
  function InsertByWeight(e: Edge, sorted: seq<Edge>): (r: seq<Edge>)
    ensures multiset(r) == multiset(sorted) + multiset{e}
  {
    if sorted == [] || sorted[0].weight <= e.weight then [e] + sorted
    else
      assert sorted == [sorted[0]] + sorted[1..];
      [sorted[0]] + InsertByWeight(e, sorted[1..])
  }

  lemma {:induction false} InsertByWeightSorted(e: Edge, sorted: seq<Edge>)
    requires NonIncreasing(sorted)
    ensures NonIncreasing(InsertByWeight(e, sorted))
  {
    if !(sorted == [] || sorted[0].weight <= e.weight) {
      var rest := InsertByWeight(e, sorted[1..]);
      InsertByWeightSorted(e, sorted[1..]);
      forall j | 0 <= j < |rest|
        ensures rest[j].weight <= sorted[0].weight
      {
        assert rest[j] in multiset(rest);
        if rest[j] != e {
          assert rest[j] in multiset(sorted[1..]);
          var k :| 0 <= k < |sorted[1..]| && sorted[1..][k] == rest[j];
          assert sorted[k + 1] == rest[j];
        }
      }
      var r := [sorted[0]] + rest;
      forall i, j | 0 <= i < j < |r|
        ensures r[i].weight >= r[j].weight
      {
        if i > 0 {
          assert r[i] == rest[i - 1] && r[j] == rest[j - 1];
        } else {
          assert r[j] == rest[j - 1];
        }
      }
    }
  }

  function SortByWeight(es: seq<Edge>): (r: seq<Edge>)
    ensures NonIncreasing(r)
  {
    if es == [] then []
    else
      var sorted := SortByWeight(es[1..]);
      InsertByWeightSorted(es[0], sorted);
      InsertByWeight(es[0], sorted)
  }

  /** The sort only reorders the edges. */
  lemma {:induction false} SortByWeightPermutes(es: seq<Edge>)
    ensures multiset(SortByWeight(es)) == multiset(es)
  {
    if es != [] {
      SortByWeightPermutes(es[1..]);
      assert es == [es[0]] + es[1..];
    }
  }

  lemma {:induction false} NoDuplicatesCount(a: seq<Edge>)
    requires NoDuplicates(a)
    ensures forall x :: multiset(a)[x] <= 1
    decreases |a|
  {
    if a != [] {
      var init := a[..|a| - 1];
      NoDuplicatesCount(init);
      assert a == init + [a[|a| - 1]];
      assert a[|a| - 1] !in init by {
        forall k | 0 <= k < |init|
          ensures init[k] != a[|a| - 1]
        {
        }
      }
    }
  }

  lemma RepeatCount(b: seq<Edge>, i: nat, j: nat)
    requires i < j < |b| && b[i] == b[j]
    ensures multiset(b)[b[i]] >= 2
  {
    assert b == b[..j] + [b[j]] + b[j + 1..];
    assert b[i] == b[..j][i];
  }

  /** The edges of g, heaviest first. */
  function SortedEdges(g: Graph): (r: seq<Edge>)
    ensures NonIncreasing(r) && |r| == |EdgeList(g)|
  {
    SortByWeightPermutes(EdgeList(g));
    assert |multiset(SortByWeight(EdgeList(g)))| == |multiset(EdgeList(g))|;
    SortByWeight(EdgeList(g))
  }

  /** The sorted edges are the listed edges, each pair of endpoints once. */
  lemma SortedEdgesListed(g: Graph)
    requires Valid(g)
    ensures multiset(SortedEdges(g)) == multiset(EdgeList(g)) && |SortedEdges(g)| == |EdgeList(g)|
    ensures forall k :: 0 <= k < |SortedEdges(g)| ==> SortedEdges(g)[k] in EdgeList(g) && HasEdge(g, SortedEdges(g)[k])
    ensures forall i, j :: 0 <= i < j < |SortedEdges(g)| ==> !SameEnds(SortedEdges(g)[i], SortedEdges(g)[j])
  {
    var es, sorted := EdgeList(g), SortedEdges(g);
    SortByWeightPermutes(es);
    assert |sorted| == |multiset(sorted)|;
    forall k | 0 <= k < |sorted|
      ensures sorted[k] in es && HasEdge(g, sorted[k])
    {
      assert sorted[k] in multiset(sorted);
      EdgeListMembers(g, sorted[k]);
    }
    EdgeListNoDuplicates(g);
    NoDuplicatesCount(es);
    forall i, j | 0 <= i < j < |sorted|
      ensures !SameEnds(sorted[i], sorted[j])
    {
      if SameEnds(sorted[i], sorted[j]) {
        EdgeListPairs(g, sorted[i], sorted[j]);
        RepeatCount(sorted, i, j);
        assert false;
      }
    }
  }

  /** `copy` is `tree` with the edges `removed` (by their endpoints) taken
      out and every node kept, as remove_edge leaves it. */
  ghost predicate PrunedBy(tree: Graph, copy: Graph, removed: seq<Edge>)
  {
    Valid(copy) && copy.nodes == tree.nodes &&
    forall e :: HasEdge(copy, e) <==> HasEdge(tree, e) && forall j :: 0 <= j < |removed| ==> !SameEnds(e, removed[j])
  }

  /** The next heaviest edge is still in the copy, and removing it prunes
      one edge more. */
  lemma PruneStep(tree: Graph, copy: Graph, i: nat)
    requires Valid(tree) && i < |SortedEdges(tree)| && PrunedBy(tree, copy, SortedEdges(tree)[..i])
    ensures (var e := SortedEdges(tree)[i];
      e.u in copy.adj && e.v in copy.adj[e.u] && PrunedBy(tree, RemoveEdge(copy, e.u, e.v), SortedEdges(tree)[..i + 1]))
  {
    var sorted := SortedEdges(tree);
    SortedEdgesListed(tree);
    var e := sorted[i];
    assert forall j :: 0 <= j < i ==> sorted[..i][j] == sorted[j];
    assert HasEdge(copy, e);
    PrunedByRemove(tree, copy, sorted[..i], e);
    TakeSnoc(sorted, i);
  }

  /** Taking one element more of s. */
  lemma TakeSnoc(s: seq<Edge>, i: nat)
    requires i < |s|
    ensures s[..i] + [s[i]] == s[..i + 1]
  {
  }

  /** Removing an edge of the copy prunes it by that edge as well. */
  lemma PrunedByRemove(tree: Graph, copy: Graph, removed: seq<Edge>, e: Edge)
    requires PrunedBy(tree, copy, removed) && e.u in copy.adj && e.v in copy.adj[e.u]
    ensures PrunedBy(tree, RemoveEdge(copy, e.u, e.v), removed + [e])
  {
    RemoveEdgeAdjacency(copy, e.u, e.v);
    var r := RemoveEdge(copy, e.u, e.v);
    var t := removed + [e];
    forall f
      ensures HasEdge(r, f) <==> HasEdge(tree, f) && forall j :: 0 <= j < |t| ==> !SameEnds(f, t[j])
    {
      assert forall j :: 0 <= j < |removed| ==> t[j] == removed[j];
      assert t[|removed|] == e;
      assert SameEnds(f, Edge(e.u, e.v, 0)) <==> SameEnds(f, e);
    }
  }

  /** Every edge left in the copy weighs no more than any edge removed. */
  lemma PrunedHeaviest(tree: Graph, copy: Graph, n: nat)
    requires Valid(tree) && n <= |SortedEdges(tree)| && PrunedBy(tree, copy, SortedEdges(tree)[..n])
    ensures forall e, j :: HasEdge(copy, e) && 0 <= j < n ==> e.weight <= SortedEdges(tree)[j].weight
  {
    var sorted := SortedEdges(tree);
    SortedEdgesListed(tree);
    forall e, j | HasEdge(copy, e) && 0 <= j < n
      ensures e.weight <= sorted[j].weight
    {
      EdgeListed(tree, e);
      var listed := if e in EdgeList(tree) then e else Edge(e.v, e.u, e.weight);
      assert listed in multiset(sorted);
      var p :| 0 <= p < |sorted| && sorted[p] == listed;
      if p < n {
        assert sorted[..n][p] == sorted[p];
        assert SameEnds(e, sorted[..n][p]);
      }
    }
  }

  // ---------------------------------------------------------------------
  // Spanning trees grown from a start node

  /** The nodes a tree grown from `start` has reached: the start node and
      the far end of every edge added. */
  function Reached(start: int, tree: seq<Edge>): set<int>
  {
    if tree == [] then {start} else Reached(start, tree[..|tree| - 1]) + {tree[|tree| - 1].v}
  }

  /** Every edge of the tree joins a node already reached to a new one:
      the edges form a tree rooted at `start`. */
  predicate Grows(g: Graph, start: int, tree: seq<Edge>)
  {
    forall k :: 0 <= k < |tree| ==>
      HasEdge(g, tree[k]) && tree[k].u in Reached(start, tree[..k]) && tree[k].v !in Reached(start, tree[..k])
  }

  lemma {:induction false} GrowsCount(g: Graph, start: int, tree: seq<Edge>)
    requires Grows(g, start, tree)
    ensures |Reached(start, tree)| == |tree| + 1
  {
    if tree != [] {
      var t := tree[..|tree| - 1];
      assert forall k :: 0 <= k < |t| ==> t[..k] == tree[..k];
      GrowsCount(g, start, t);
      assert tree[..|tree| - 1] == t;
    }
  }

  /** Extending a growing tree by an edge out of the reached nodes. */
  lemma GrowsAppend(g: Graph, start: int, tree: seq<Edge>, e: Edge)
    requires Grows(g, start, tree) && HasEdge(g, e)
    requires e.u in Reached(start, tree) && e.v !in Reached(start, tree)
    ensures Grows(g, start, tree + [e]) && Reached(start, tree + [e]) == Reached(start, tree) + {e.v}
  {
    var t := tree + [e];
    assert t[..|tree|] == tree;
    forall k | 0 <= k < |tree|
      ensures t[..k] == tree[..k]
    {
    }
  }

  /** A set of nodes with no edge leaving it. */
  predicate Closed(g: Graph, s: set<int>)
  {
    forall u, v :: u in s && u in g.adj && v in g.adj[u] ==> v in s
  }

  /** The graph falls apart: some non-empty set of nodes, not all of them,
      has no edge to the others. */
  ghost predicate Disconnected(g: Graph)
  {
    exists s :: s != {} && s <= g.adj.Keys && s != g.adj.Keys && Closed(g, s)
  }

  lemma Inhabited(s: set<int>)
    requires s != {}
    ensures exists x :: x in s
  {
    if forall x :: x !in s {
      assert false;
    }
  }

  lemma AddNewNode(s: set<int>, x: int)
    requires x !in s
    ensures |s + {x}| == |s| + 1
  {
  }

  lemma DistinctCard(s: seq<int>)
    requires Distinct(s)
    ensures |set x | x in s| == |s|
  {
    if s != [] {
      var t := s[..|s| - 1];
      DistinctCard(t);
      assert (set x | x in s) == (set x | x in t) + {s[|s| - 1]};
      assert s[|s| - 1] !in t;
    }
  }

  lemma NodeCount(g: Graph)
    requires Valid(g)
    ensures |g.adj.Keys| == |g.nodes|
  {
    DistinctCard(g.nodes);
    assert g.adj.Keys == set x | x in g.nodes;
  }
}
