/** Clustering of sites on a map: a spanning tree grown with a heap of
    (u, v, weight) tuples, the split into clusters, and the graph data built
    from the sites with the distance between two sites left abstract. */
module ClusterMap {
  import opened Wrappers
  import opened Graphs

  // ---------------------------------------------------------------------
  // The heap of get_spanning_tree_custom

  /** Python's order on (u, v, weight) tuples. */
  predicate TupleLe(a: Edge, b: Edge)
  {
    a.u < b.u || (a.u == b.u && (a.v < b.v || (a.v == b.v && a.weight <= b.weight)))
  }

  predicate HeapOrdered(heap: seq<Edge>)
  {
    forall i, j :: 0 <= i < j < |heap| ==> TupleLe(heap[i], heap[j])
  }

  /** heappush: the heap is kept as the ordered sequence of its tuples, so
      heappop takes the first one. */
  function Push(heap: seq<Edge>, e: Edge): (r: seq<Edge>)
    ensures multiset(r) == multiset(heap) + multiset{e}
  {
    if heap == [] || TupleLe(e, heap[0]) then [e] + heap
    else
      assert heap == [heap[0]] + heap[1..];
      [heap[0]] + Push(heap[1..], e)
  }

  lemma {:induction false} PushOrdered(heap: seq<Edge>, e: Edge)
    requires HeapOrdered(heap)
    ensures HeapOrdered(Push(heap, e))
  {
    if !(heap == [] || TupleLe(e, heap[0])) {
      var rest := Push(heap[1..], e);
      PushOrdered(heap[1..], e);
      forall j | 0 <= j < |rest|
        ensures TupleLe(heap[0], rest[j])
      {
        assert rest[j] in multiset(rest);
        if rest[j] != e {
          assert rest[j] in multiset(heap[1..]);
          var k :| 0 <= k < |heap[1..]| && heap[1..][k] == rest[j];
          assert heap[k + 1] == rest[j];
        }
      }
      var r := [heap[0]] + rest;
      forall i, j | 0 <= i < j < |r|
        ensures TupleLe(r[i], r[j])
      {
        if i > 0 {
          assert r[i] == rest[i - 1] && r[j] == rest[j - 1];
        } else {
          assert r[j] == rest[j - 1];
        }
      }
    }
  }

  /** heappop returns the least tuple of the heap: ordered by u first, then
      by v, and only then by weight. */
  lemma PopIsLeast(heap: seq<Edge>)
    requires HeapOrdered(heap) && heap != []
    ensures forall f :: f in heap ==> TupleLe(heap[0], f)
  {
    forall f | f in heap
      ensures TupleLe(heap[0], f)
    {
      var k :| 0 <= k < |heap| && heap[k] == f;
    }
  }

  /** heapify of the start node's edges, one push at a time. */
  function Heapify(es: seq<Edge>): (r: seq<Edge>)
    ensures multiset(r) == multiset(es) && HeapOrdered(r)
  {
    if es == [] then []
    else
      var h := Heapify(es[..|es| - 1]);
      PushOrdered(h, es[|es| - 1]);
      assert es == es[..|es| - 1] + [es[|es| - 1]];
      Push(h, es[|es| - 1])
  }

  /** Every edge from a visited node to an unvisited one is waiting in the
      heap. */
  ghost predicate Frontier(g: Graph, visited: set<int>, heap: seq<Edge>)
  {
    forall u, v :: u in visited && u in g.adj && v in g.adj[u] && v !in visited ==> Edge(u, v, g.adj[u][v]) in heap
  }

  /** The loop over graph.edges(v) that pushes the edges to unvisited
      nodes; the neighbour order is left open. */
  method PushEdges(g: Graph, v: int, visited: set<int>, heap: seq<Edge>) returns (r: seq<Edge>)
    requires v in g.adj && HeapOrdered(heap)
    ensures HeapOrdered(r) && forall e :: e in r <==> e in heap || (e.u == v && HasEdge(g, e) && e.v !in visited)
  {
    r := heap;
    var rest := g.adj[v].Keys;
    while rest != {}
      invariant rest <= g.adj[v].Keys && HeapOrdered(r)
      invariant forall e :: e in r <==> e in heap || (e.u == v && HasEdge(g, e) && e.v !in visited && e.v !in rest)
      decreases rest
    {
      Inhabited(rest);
      var nextV :| nextV in rest;
      if nextV !in visited {
        PushOrdered(r, Edge(v, nextV, g.adj[v][nextV]));
        r := Push(r, Edge(v, nextV, g.adj[v][nextV]));
        assert forall e :: e in r <==> e in multiset(r);
      }
      rest := rest - {nextV};
    }
  }

  /** The edges at the start node, as graph.edges(start_node) lists them. */
  method StartEdges(g: Graph, start: int) returns (es: seq<Edge>)
    requires start in g.adj
    ensures forall e :: e in es <==> e.u == start && HasEdge(g, e)
  {
    es := [];
    var rest := g.adj[start].Keys;
    while rest != {}
      invariant rest <= g.adj[start].Keys
      invariant forall e :: e in es <==> e.u == start && HasEdge(g, e) && e.v !in rest
      decreases rest
    {
      Inhabited(rest);
      var y :| y in rest;
      es := es + [Edge(start, y, g.adj[start][y])];
      rest := rest - {y};
    }
  }

  /** The loop state of get_spanning_tree_custom: `visited` is what `edges`
      reaches from the start node, the heap holds edges out of visited
      nodes, and every edge leaving the visited nodes is in the heap. */
  ghost predicate Growing(g: Graph, start: int, edges: seq<Edge>, visited: set<int>, heap: seq<Edge>)
  {
    visited == Reached(start, edges) && visited <= g.adj.Keys &&
    Grows(g, start, edges) && HeapOrdered(heap) &&
    (forall e :: e in heap ==> HasEdge(g, e) && e.u in visited) &&
    Frontier(g, visited, heap)
  }

  /** heappop's choice, edge by edge: each tree edge is the least
      (u, v, weight) tuple among the edges leaving the nodes reached before
      it, so the tree follows node numbers before weights. */
  ghost predicate HeapOrder(g: Graph, start: int, tree: seq<Edge>)
  {
    forall k :: 0 <= k < |tree| ==>
      forall f :: HasEdge(g, f) && f.u in Reached(start, tree[..k]) && f.v !in Reached(start, tree[..k]) ==> TupleLe(tree[k], f)
  }

  /** The edge popped to reach a new node is the least tuple leaving the
      visited nodes: every such edge waits in the heap behind it. */
  lemma HeapOrderStep(g: Graph, start: int, edges: seq<Edge>, visited: set<int>, heap: seq<Edge>)
    requires heap != [] && heap[0].v !in visited && Growing(g, start, edges, visited, heap)
    requires HeapOrder(g, start, edges)
    ensures HeapOrder(g, start, edges + [heap[0]])
  {
    var t := edges + [heap[0]];
    PopIsLeast(heap);
    forall k | 0 <= k < |t|
      ensures forall f :: HasEdge(g, f) && f.u in Reached(start, t[..k]) && f.v !in Reached(start, t[..k]) ==> TupleLe(t[k], f)
    {
      if k < |edges| {
        assert t[..k] == edges[..k];
      } else {
        assert t[..k] == edges;
        forall f | HasEdge(g, f) && f.u in visited && f.v !in visited
          ensures TupleLe(t[k], f)
        {
          assert f == Edge(f.u, f.v, g.adj[f.u][f.v]);
        }
      }
    }
  }

  /** The popped edge leads to a visited node: it is dropped. */
  lemma SkipVisited(g: Graph, start: int, edges: seq<Edge>, visited: set<int>, heap: seq<Edge>)
    requires heap != [] && heap[0].v in visited && Growing(g, start, edges, visited, heap)
    ensures Growing(g, start, edges, visited, heap[1..])
  {
    assert heap == [heap[0]] + heap[1..];
    forall i, j | 0 <= i < j < |heap[1..]|
      ensures TupleLe(heap[1..][i], heap[1..][j])
    {
      assert heap[1..][i] == heap[i + 1] && heap[1..][j] == heap[j + 1];
    }
  }

  /** The popped edge leads to a new node: the edge joins the tree, the node
      is visited, and its edges to unvisited nodes are pushed. */
  method Visit(g: Graph, ghost start: int, edges: seq<Edge>, visited: set<int>, heap: seq<Edge>)
    returns (edges': seq<Edge>, visited': set<int>, heap': seq<Edge>)
    requires Valid(g) && heap != [] && heap[0].v !in visited && Growing(g, start, edges, visited, heap)
    ensures edges' == edges + [heap[0]] && visited' == visited + {heap[0].v}
    ensures Growing(g, start, edges', visited', heap')
  {
    var e := heap[0];
    assert HasEdge(g, e) && e.u in visited;
    var rest := heap[1..];
    assert heap == [e] + rest;
    forall i, j | 0 <= i < j < |rest|
      ensures TupleLe(rest[i], rest[j])
    {
      assert rest[i] == heap[i + 1] && rest[j] == heap[j + 1];
    }
    Symmetric(g, e.u, e.v);
    GrowsAppend(g, start, edges, e);
    edges' := edges + [e];
    visited' := visited + {e.v};
    heap' := PushEdges(g, e.v, visited', rest);
    FrontierStep(g, visited, e, heap');
  }

  /** The heap before the loop: the start node's edges, heapified. */
  method StartHeap(g: Graph, start: int) returns (heap: seq<Edge>)
    requires Valid(g) && start in g.adj
    ensures Growing(g, start, [], {start}, heap)
  {
    var startEdges := StartEdges(g, start);
    heap := Heapify(startEdges);
    forall u, v | u in {start} && u in g.adj && v in g.adj[u] && v !in {start}
      ensures Edge(u, v, g.adj[u][v]) in heap
    {
      assert Edge(u, v, g.adj[u][v]) in multiset(startEdges);
    }
    forall e | e in heap
      ensures HasEdge(g, e) && e.u in {start}
    {
      assert e in multiset(heap);
    }
  }

  /** When the heap is empty, the tree spans the start node's component. */
  lemma Finished(g: Graph, start: int, edges: seq<Edge>, visited: set<int>)
    requires Valid(g) && start in g.adj && Growing(g, start, edges, visited, [])
    ensures Valid(AddEdges(Empty, edges)) && Subgraph(AddEdges(Empty, edges), g)
    ensures |edges| <= |g.nodes| - 1 && Closed(g, Reached(start, edges))
  {
    FinishedCount(g, start, edges, visited);
    FinishedClosed(g, visited);
    assert forall k :: 0 <= k < |edges| ==> HasEdge(g, edges[k]);
    AddEdgesSubgraph(Empty, edges, g);
  }

  /** A tree grown inside the graph has fewer edges than the graph nodes. */
  lemma FinishedCount(g: Graph, start: int, edges: seq<Edge>, visited: set<int>)
    requires Valid(g) && Grows(g, start, edges) && visited == Reached(start, edges) && visited <= g.adj.Keys
    ensures |edges| <= |g.nodes| - 1
  {
    GrowsCount(g, start, edges);
    NodeCount(g);
    SubsetCard(visited, g.adj.Keys);
  }

  /** With nothing left in the heap, no edge leaves the visited nodes. */
  lemma FinishedClosed(g: Graph, visited: set<int>)
    requires Frontier(g, visited, [])
    ensures Closed(g, visited)
  {
    forall u, v | u in visited && u in g.adj && v in g.adj[u]
      ensures v in visited
    {
      assert Edge(u, v, g.adj[u][v]) !in [];
    }
  }

  /** get_spanning_tree_custom. `tree` is the list `edges` handed to
      add_weighted_edges_from. An empty graph has no first node. */
  method SpanningTreeCustom(g: Graph) returns (r: Result<Graph>, ghost tree: seq<Edge>)
    requires Valid(g)
    ensures r.Error? <==> g.nodes == []
    ensures r.Ok? ==> r.value == AddEdges(Empty, tree) && Valid(r.value) && Subgraph(r.value, g)
    ensures r.Ok? ==> Grows(g, g.nodes[0], tree) && |tree| <= |g.nodes| - 1
    ensures r.Ok? ==> Closed(g, Reached(g.nodes[0], tree))
    ensures r.Ok? ==> HeapOrder(g, g.nodes[0], tree)
  {
    tree := [];
    if g.nodes == [] {
      return Error, tree;
    }
    var edges: seq<Edge> := [];
    var start := g.nodes[0];
    var visited := {start};
    var heap := StartHeap(g, start);
    while heap != []
      invariant Growing(g, start, edges, visited, heap) && HeapOrder(g, start, edges)
      decreases g.adj.Keys - visited, |heap|
    {
      if heap[0].v !in visited {
        assert heap[0].v in g.adj.Keys by {
          assert heap[0] in heap;
          Symmetric(g, heap[0].u, heap[0].v);
        }
        HeapOrderStep(g, start, edges, visited, heap);
        edges, visited, heap := Visit(g, start, edges, visited, heap);
      } else {
        SkipVisited(g, start, edges, visited, heap);
        heap := heap[1..];
      }
    }
    tree := edges;
    Finished(g, start, edges, visited);
    r := Ok(AddEdges(Empty, edges));
  }

  lemma FrontierStep(g: Graph, before: set<int>, e: Edge, heap: seq<Edge>)
    requires Valid(g) && e.v in g.adj
    requires forall u, v :: u in before && u in g.adj && v in g.adj[u] && v !in before && v != e.v ==> Edge(u, v, g.adj[u][v]) in heap
    requires forall f: Edge :: e.v == f.u && HasEdge(g, f) && f.v !in before + {e.v} ==> f in heap
    ensures Frontier(g, before + {e.v}, heap)
  {
  }

  lemma SubsetCard(a: set<int>, b: set<int>)
    requires a <= b
    ensures |a| <= |b|
  {
    assert b == a + (b - a) && a * (b - a) == {};
  }

  // ---------------------------------------------------------------------
  // get_clusters

  /** get_clusters: like the other one, but an index past the last edge is
      skipped, so at most all the edges are removed and the call never
      raises. */
  method GetClusters(tree: Graph, nClusters: int) returns (copyTree: Graph)
    requires Valid(tree)
    ensures PrunedBy(tree, copyTree, SortedEdges(tree)[..RemovedCount(nClusters, |EdgeList(tree)|)])
    ensures forall e, j :: HasEdge(copyTree, e) && 0 <= j < RemovedCount(nClusters, |EdgeList(tree)|) ==> e.weight <= SortedEdges(tree)[j].weight
  {
    var sortedEdges := SortedEdges(tree);
    copyTree := tree;
    var count := if nClusters < 1 then 0 else nClusters - 1;
    var removed := 0;
    for i := 0 to count
      invariant removed == (if i < |sortedEdges| then i else |sortedEdges|)
      invariant PrunedBy(tree, copyTree, sortedEdges[..removed])
    {
      if |sortedEdges| > i {
        PruneStep(tree, copyTree, i);
        copyTree := RemoveEdge(copyTree, sortedEdges[i].u, sortedEdges[i].v);
        removed := removed + 1;
      }
    }
    PrunedHeaviest(tree, copyTree, removed);
  }

  /** min(n_clusters - 1, number of edges), and none for n_clusters < 1. */
  function RemovedCount(nClusters: int, edgeCount: nat): (n: nat)
    ensures n <= edgeCount && (nClusters >= 1 ==> n == if nClusters - 1 < edgeCount then nClusters - 1 else edgeCount)
  {
    if nClusters < 1 then 0 else if nClusters - 1 < edgeCount then nClusters - 1 else edgeCount
  }

  // ---------------------------------------------------------------------
  // generate_graphdata_fsites

  /** A site: its code and its coordinates (floating point in the source;
      they are only read by the distance function). */
  datatype Site = Site(code: int, lat: int, lon: int)

  /** The greatest distance in North America, the starting minimum. */
  const NA_MAX_DISTANCE: int := 7327

  function Codes(sites: seq<Site>): (r: seq<int>)
    ensures |r| == |sites| && forall k :: 0 <= k < |sites| ==> r[k] == sites[k].code
  {
    if sites == [] then [] else Codes(sites[..|sites| - 1]) + [sites[|sites| - 1].code]
  }

  /** The edges from sites[i] to sites[i + 1..k] within maxDistance. */
  function Near(sites: seq<Site>, i: nat, k: nat, maxDistance: int, distance: (Site, Site) -> int): seq<Edge>
    requires i < k <= |sites|
    decreases k
  {
    if k == i + 1 then []
    else
      var d := distance(sites[i], sites[k - 1]);
      Near(sites, i, k - 1, maxDistance, distance)
        + (if d <= maxDistance then [Edge(sites[i].code, sites[k - 1].code, d)] else [])
  }

  /** min_distance after the sites i + 1..k - 1: NA_MAX_DISTANCE lowered by
      every strictly smaller distance. */
  function MinDistance(sites: seq<Site>, i: nat, k: nat, distance: (Site, Site) -> int): int
    requires i < k <= |sites|
    decreases k
  {
    if k == i + 1 then NA_MAX_DISTANCE
    else
      var m := MinDistance(sites, i, k - 1, distance);
      var d := distance(sites[i], sites[k - 1]);
      if d < m then d else m
  }

  /** What one site contributes, as written: its near edges, or, when there
      is none, one edge to the last site (the loop variable `dest` after the
      loop) weighted with the least distance seen. */
  function SiteEdges(sites: seq<Site>, i: nat, maxDistance: int, distance: (Site, Site) -> int): seq<Edge>
    requires i + 1 < |sites|
  {
    var near := Near(sites, i, |sites|, maxDistance, distance);
    if near == [] then [Edge(sites[i].code, sites[|sites| - 1].code, MinDistance(sites, i, |sites|, distance))]
    else near
  }

  /** The edge lists of the first n sites, one per site. */
  function PerSite(sites: seq<Site>, n: nat, maxDistance: int, distance: (Site, Site) -> int): (parts: seq<seq<Edge>>)
    requires n < |sites|
    ensures |parts| == n && forall k :: 0 <= k < n ==> parts[k] == SiteEdges(sites, k, maxDistance, distance)
  {
    seq(n, k requires 0 <= k < n => SiteEdges(sites, k, maxDistance, distance))
  }

  /** Edge lists joined in order. */
  function Flatten(parts: seq<seq<Edge>>): seq<Edge>
  {
    if parts == [] then [] else Flatten(parts[..|parts| - 1]) + parts[|parts| - 1]
  }

  /** An edge of any of the lists is an edge of the joined list. */
  lemma {:induction false} FlattenHas(parts: seq<seq<Edge>>, k: nat, e: Edge)
    requires k < |parts| && e in parts[k]
    ensures e in Flatten(parts)
    decreases |parts|
  {
    var init := parts[..|parts| - 1];
    if k < |parts| - 1 {
      assert init[k] == parts[k];
      FlattenHas(init, k, e);
    }
  }

  /** The edges of the first n sites. */
  function GraphData(sites: seq<Site>, n: nat, maxDistance: int, distance: (Site, Site) -> int): seq<Edge>
    requires n < |sites|
  {
    Flatten(PerSite(sites, n, maxDistance, distance))
  }

  /** generate_graphdata_fsites as written, with max_distance 400 unless
      given; get_distance is the parameter `distance`. */
  method GenerateGraphData(sites: seq<Site>, distance: (Site, Site) -> int, maxDistance: int := 400)
    returns (edges: seq<Edge>, nodes: seq<int>)
    ensures nodes == Codes(if sites == [] then [] else sites[..|sites| - 1])
    ensures sites != [] ==> edges == GraphData(sites, |sites| - 1, maxDistance, distance)
    ensures sites == [] ==> edges == []
  {
    edges, nodes := [], [];
    if sites == [] {
      return;
    }
    for i := 0 to |sites| - 1
      invariant nodes == Codes(sites[..i]) && edges == GraphData(sites, i, maxDistance, distance)
    {
      assert sites[..i + 1] == sites[..i] + [sites[i]];
      nodes := nodes + [sites[i].code];
      var own := SiteData(sites, i, maxDistance, distance);
      ghost var parts := PerSite(sites, i + 1, maxDistance, distance);
      assert parts[..i] == PerSite(sites, i, maxDistance, distance);
      edges := edges + own;
    }
  }

  /** One pass of the outer loop of generate_graphdata_fsites: the edges
      written for sites[i]. */
  method SiteData(sites: seq<Site>, i: nat, maxDistance: int, distance: (Site, Site) -> int) returns (edges: seq<Edge>)
    requires i + 1 < |sites|
    ensures edges == SiteEdges(sites, i, maxDistance, distance)
  {
    edges := [];
    var site := sites[i];
    var minDistance := NA_MAX_DISTANCE;
    var minDest: Option<Site> := None;
    var minDestFlag := true;
    var dest := sites[i + 1];
    for j := i + 1 to |sites|
      invariant edges == Near(sites, i, j, maxDistance, distance)
      invariant minDistance == MinDistance(sites, i, j, distance)
      invariant minDestFlag <==> edges == []
      invariant j > i + 1 ==> dest == sites[j - 1]
    {
      dest := sites[j];
      var d := distance(site, dest);
      if d <= maxDistance {
        edges := edges + [Edge(site.code, dest.code, d)];
        minDestFlag := false;
      }
      if d < minDistance {
        minDest := Some(dest);
        minDistance := d;
      }
    }
    if minDestFlag {
      edges := edges + [Edge(site.code, dest.code, minDistance)];
    }
  }

  /** Every pair of sites within maxDistance gets its edge, from the
      earlier site to the later one. */
  lemma {:induction false} NearHasPair(sites: seq<Site>, i: nat, j: nat, k: nat, maxDistance: int, distance: (Site, Site) -> int)
    requires i < j < k <= |sites| && distance(sites[i], sites[j]) <= maxDistance
    ensures Edge(sites[i].code, sites[j].code, distance(sites[i], sites[j])) in Near(sites, i, k, maxDistance, distance)
    decreases k
  {
    if j < k - 1 {
      NearHasPair(sites, i, j, k - 1, maxDistance, distance);
    }
  }

  /** generate_graphdata_fsites links every site to every later site within
      maxDistance. */
  lemma GraphDataHasNearPairs(sites: seq<Site>, i: nat, j: nat, maxDistance: int, distance: (Site, Site) -> int)
    requires i < j < |sites| && distance(sites[i], sites[j]) <= maxDistance
    ensures Edge(sites[i].code, sites[j].code, distance(sites[i], sites[j])) in GraphData(sites, |sites| - 1, maxDistance, distance)
  {
    var e := Edge(sites[i].code, sites[j].code, distance(sites[i], sites[j]));
    NearHasPair(sites, i, j, |sites|, maxDistance, distance);
    var parts := PerSite(sites, |sites| - 1, maxDistance, distance);
    assert e in parts[i];
    FlattenHas(parts, i, e);
  }

  /** Near is empty exactly when no later site is within maxDistance. */
  lemma {:induction false} NearEmpty(sites: seq<Site>, i: nat, k: nat, maxDistance: int, distance: (Site, Site) -> int)
    requires i < k <= |sites|
    ensures Near(sites, i, k, maxDistance, distance) == [] <==> forall j :: i < j < k ==> distance(sites[i], sites[j]) > maxDistance
    decreases k
  {
    if k > i + 1 {
      NearEmpty(sites, i, k - 1, maxDistance, distance);
    }
  }

  /** min_distance is the least of NA_MAX_DISTANCE and the distances to the
      later sites. */
  lemma {:induction false} MinDistanceIsLeast(sites: seq<Site>, i: nat, k: nat, distance: (Site, Site) -> int)
    requires i < k <= |sites|
    ensures MinDistance(sites, i, k, distance) <= NA_MAX_DISTANCE
    ensures forall j :: i < j < k ==> MinDistance(sites, i, k, distance) <= distance(sites[i], sites[j])
    ensures MinDistance(sites, i, k, distance) == NA_MAX_DISTANCE
      || exists j :: i < j < k && MinDistance(sites, i, k, distance) == distance(sites[i], sites[j])
    decreases k
  {
    if k > i + 1 {
      MinDistanceIsLeast(sites, i, k - 1, distance);
    }
  }

  /** As written: a site with no later site within maxDistance is linked to
      the last site, whatever its distance, with the least distance seen as
      the weight. */
  lemma FallbackToLastSite(sites: seq<Site>, i: nat, maxDistance: int, distance: (Site, Site) -> int)
    requires i + 1 < |sites| && forall j :: i < j < |sites| ==> distance(sites[i], sites[j]) > maxDistance
    ensures SiteEdges(sites, i, maxDistance, distance)
      == [Edge(sites[i].code, sites[|sites| - 1].code, MinDistance(sites, i, |sites|, distance))]
  {
    NearEmpty(sites, i, |sites|, maxDistance, distance);
  }

  /** Three sites 1, 2, 3 where site 1 is 500 from site 2 and 900 from site
      3, and nothing is within 400: the edge written for site 1 goes to site
      3 but carries the weight 500 of the pair (1, 2). */
  lemma FallbackWeightMismatch()
    ensures var sites := [Site(1, 0, 0), Site(2, 0, 0), Site(3, 0, 0)];
      var distance := (a: Site, b: Site) => if a.code == 1 && b.code == 2 then 500 else if a.code == 1 && b.code == 3 then 900 else 450;
      SiteEdges(sites, 0, 400, distance) == [Edge(1, 3, 500)] && distance(sites[0], sites[2]) == 900
  {
    var sites := [Site(1, 0, 0), Site(2, 0, 0), Site(3, 0, 0)];
    var distance := (a: Site, b: Site) => if a.code == 1 && b.code == 2 then 500 else if a.code == 1 && b.code == 3 then 900 else 450;
    assert Near(sites, 0, 3, 400, distance) == [];
    assert MinDistance(sites, 0, 3, distance) == 500;
  }

  /** The index of the first later site at the least distance. */
  function Nearest(sites: seq<Site>, i: nat, k: nat, distance: (Site, Site) -> int): (j: nat)
    requires i + 1 < k <= |sites|
    ensures i < j < k && forall x :: i < x < k ==> distance(sites[i], sites[j]) <= distance(sites[i], sites[x])
    ensures forall x :: i < x < j ==> distance(sites[i], sites[x]) > distance(sites[i], sites[j])
    decreases k
  {
    if k == i + 2 then i + 1
    else
      var j := Nearest(sites, i, k - 1, distance);
      if distance(sites[i], sites[k - 1]) < distance(sites[i], sites[j]) then k - 1 else j
  }

  /** The evidently intended fallback: the edge to the first nearest later
      site, weighted with its distance. That site is min_dest whenever some
      later site lies closer than NA_MAX_DISTANCE; when none does, min_dest
      stays None in the source, and the correction still takes the nearest
      site so that every site but the last keeps an edge. */
  function CorrectedSiteEdges(sites: seq<Site>, i: nat, maxDistance: int, distance: (Site, Site) -> int): seq<Edge>
    requires i + 1 < |sites|
  {
    var near := Near(sites, i, |sites|, maxDistance, distance);
    if near == [] then
      var j := Nearest(sites, i, |sites|, distance);
      [Edge(sites[i].code, sites[j].code, distance(sites[i], sites[j]))]
    else near
  }

  /** With the correction, the fallback edge joins the site to a later site
      at the least distance and carries exactly that distance. */
  lemma CorrectedFallbackIsNearest(sites: seq<Site>, i: nat, maxDistance: int, distance: (Site, Site) -> int)
    requires i + 1 < |sites| && forall j :: i < j < |sites| ==> distance(sites[i], sites[j]) > maxDistance
    ensures |CorrectedSiteEdges(sites, i, maxDistance, distance)| == 1
    ensures var e := CorrectedSiteEdges(sites, i, maxDistance, distance)[0];
      exists j :: i < j < |sites| && e == Edge(sites[i].code, sites[j].code, distance(sites[i], sites[j]))
        && (forall x :: i < x < |sites| ==> e.weight <= distance(sites[i], sites[x]))
        && (forall x :: i < x < j ==> e.weight < distance(sites[i], sites[x]))
  {
    NearEmpty(sites, i, |sites|, maxDistance, distance);
    var j := Nearest(sites, i, |sites|, distance);
    assert CorrectedSiteEdges(sites, i, maxDistance, distance)[0] == Edge(sites[i].code, sites[j].code, distance(sites[i], sites[j]));
  }
}
