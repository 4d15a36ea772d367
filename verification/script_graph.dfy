/** script.js: `findNearestNode` and `findShortestPath` over the route
    graph JSON `{nodes, edges}`. Node keys (`coord.toString()`) are node
    values of any type with equality; distances are nat-valued weights. */
module ScriptGraph {
  import opened Geo
  import opened Routing
  import opened DijkstraSteps
  import Nearest

  /** `findNearestNode`: scans `routeGraph.nodes` with `turf.distance` from
      the query point, keeping a node only when strictly nearer than the best
      so far; `null` for an empty node list. */
  method FindNearestNode(nodes: seq<LngLat>, latlng: LatLng, distance: (LngLat, LngLat) -> real)
    returns (nearest: Option<LngLat>)
    ensures nearest.None? <==> |nodes| == 0
    ensures nearest.Some? ==> exists k :: 
      && 0 <= k < |nodes| && nodes[k] == nearest.value
      && (forall i :: 0 <= i < |nodes| ==> distance(ToLngLat(latlng), nodes[k]) <= distance(ToLngLat(latlng), nodes[i]))
      && (forall i :: 0 <= i < k ==> distance(ToLngLat(latlng), nodes[k]) < distance(ToLngLat(latlng), nodes[i]))
  {
    var q := ToLngLat(latlng);
    var dist, admit := n => distance(q, n), n => true;
    var best := Nearest.NearestIndex(nodes, dist, admit);
    assert |nodes| > 0 ==> admit(nodes[0]);
    if best.Some? {
      nearest := Some(nodes[best.value]);
      assert Nearest.IsFirstNearest(nodes, dist, admit, best.value);
    } else {
      nearest := None;
    }
  }

  /** The edge `e` joins `u` and `v`, in either direction. */
  predicate Joins<N(==)>(e: Edge<N>, u: N, v: N)
  {
    (e.from == u && e.to == v) || (e.from == v && e.to == u)
  }

  /** Weight of the last edge in the list joining `u` and `v`. */
  function LastJoin<N(==)>(edges: seq<Edge<N>>, u: N, v: N): Option<nat>
  {
    if edges == [] then None
    else if Joins(edges[|edges| - 1], u, v) then Some(edges[|edges| - 1].weight)
    else LastJoin(edges[..|edges| - 1], u, v)
  }

  /** One pass of the `routeGraph.edges.forEach` body: create missing
      entries, then `graph[from][to] = graph[to][from] = weight`. */
  function AddEdge<N(==)>(g: Graph<N>, e: Edge<N>): Graph<N>
  {
    var g1 := if e.from in g then g else g[e.from := map[]];
    var g2 := if e.to in g1 then g1 else g1[e.to := map[]];
    var g3 := g2[e.from := g2[e.from][e.to := e.weight]];
    g3[e.to := g3[e.to][e.from := e.weight]]
  }

  /** The `graph` object `findShortestPath` builds: one empty entry per
      listed node, then every edge added in list order. */
  function Adjacency<N(==)>(nodes: seq<N>, edges: seq<Edge<N>>): Graph<N>
  {
    if edges == [] then map u | u in nodes :: map[]
    else AddEdge(Adjacency(nodes, edges[..|edges| - 1]), edges[|edges| - 1])
  }

  /** Joining is symmetric, so the last joining edge is the same both ways,
      and only endpoints of edges are ever joined. */
  lemma {:induction false} LastJoinSymmetric<N>(edges: seq<Edge<N>>, u: N, v: N)
    ensures LastJoin(edges, u, v) == LastJoin(edges, v, u)
    ensures LastJoin(edges, u, v).Some? ==> Endpoint(edges, u) && Endpoint(edges, v)
  {
    if edges != [] {
      var init, e := edges[..|edges| - 1], edges[|edges| - 1];
      LastJoinSymmetric(init, u, v);
      if !Joins(e, u, v) && LastJoin(init, u, v).Some? {
        var i :| 0 <= i < |init| && (init[i].from == u || init[i].to == u);
        var j :| 0 <= j < |init| && (init[j].from == v || init[j].to == v);
        assert edges[i] == init[i] && edges[j] == init[j];
      } else if Joins(e, u, v) {
        assert edges[|edges| - 1] == e;
      }
    }
  }

  /** What one `AddEdge` does to the keys and to one neighbour entry. */
  lemma AddEdgeAt<N>(g: Graph<N>, e: Edge<N>, u: N, v: N)
    ensures u in AddEdge(g, e) <==> u in g || u == e.from || u == e.to
    ensures u in AddEdge(g, e) ==>
      (v in AddEdge(g, e)[u] <==> Joins(e, u, v) || (u in g && v in g[u]))
    ensures u in AddEdge(g, e) && v in AddEdge(g, e)[u] ==>
      AddEdge(g, e)[u][v] == if Joins(e, u, v) then e.weight else g[u][v]
  {
  }

  /** The adjacency's keys are the listed nodes and the edge endpoints; `v`
      is a neighbour of `u` exactly when some edge joins them, and the weight
      stored is that of the LAST such edge (a repeated pair overwrites). */
  lemma {:induction false} AdjacencyIsLastJoin<N>(nodes: seq<N>, edges: seq<Edge<N>>)
    ensures forall u :: u in Adjacency(nodes, edges) <==> u in nodes || Endpoint(edges, u)
    ensures forall u, v :: u in Adjacency(nodes, edges) ==>
      (v in Adjacency(nodes, edges)[u] <==> LastJoin(edges, u, v).Some?)
    ensures forall u, v :: u in Adjacency(nodes, edges) && v in Adjacency(nodes, edges)[u] ==>
      Adjacency(nodes, edges)[u][v] == LastJoin(edges, u, v).value
  {
    if edges != [] {
      var init, e := edges[..|edges| - 1], edges[|edges| - 1];
      AdjacencyIsLastJoin(nodes, init);
      var g0, g := Adjacency(nodes, init), Adjacency(nodes, edges);
      assert g == AddEdge(g0, e);
      forall u, v | u in g
        ensures (v in g[u] <==> LastJoin(edges, u, v).Some?)
        ensures v in g[u] ==> g[u][v] == LastJoin(edges, u, v).value
      {
        AddEdgeAt(g0, e, u, v);
        LastJoinSymmetric(init, u, v);
      }
      forall u ensures u in g <==> u in nodes || Endpoint(edges, u) {
        AddEdgeAt(g0, e, u, u);
        if Endpoint(init, u) {
          var i :| 0 <= i < |init| && (init[i].from == u || init[i].to == u);
          assert edges[i] == init[i];
        }
        if Endpoint(edges, u) && !Endpoint(init, u) {
          var i :| 0 <= i < |edges| && (edges[i].from == u || edges[i].to == u);
          if i < |init| { assert init[i] == edges[i]; }
        }
      }
    }
  }

  /** The adjacency is symmetric (`graph[u][v] == graph[v][u]`), and every
      neighbour is itself a key. */
  lemma AdjacencySymmetric<N>(nodes: seq<N>, edges: seq<Edge<N>>)
    ensures forall u, v :: u in Adjacency(nodes, edges) && v in Adjacency(nodes, edges)[u] ==>
      v in Adjacency(nodes, edges) && u in Adjacency(nodes, edges)[v] &&
      Adjacency(nodes, edges)[v][u] == Adjacency(nodes, edges)[u][v]
    ensures Closed(Adjacency(nodes, edges))
  {
    AdjacencyIsLastJoin(nodes, edges);
    var g := Adjacency(nodes, edges);
    forall u, v | u in g && v in g[u]
      ensures v in g && u in g[v] && g[v][u] == g[u][v]
    {
      assert LastJoin(edges, u, v).Some?;
      LastJoinSymmetric(edges, u, v);
      assert v in g;
      assert LastJoin(edges, v, u).Some?;
    }
  }

  /** The keys listed once each and exactly the keys of `graph`. */
  ghost predicate KeysOf<N(!new)>(graph: Graph<N>, keys: seq<N>)
  {
    && (forall i, j :: 0 <= i < j < |keys| ==> keys[i] != keys[j])
    && (forall x :: x in keys <==> x in graph)
  }

  /** `routeGraph.nodes.forEach(coord => { graph[coord] = {}; })`, with the
      keys in insertion order. */
  method EmptyEntries<N(==,!new)>(nodes: seq<N>) returns (graph: Graph<N>, keys: seq<N>)
    ensures graph == Adjacency(nodes, [])
    ensures KeysOf(graph, keys)
  {
    graph, keys := map[], [];
    var i := 0;
    while i < |nodes|
      invariant 0 <= i <= |nodes|
      invariant graph == map u | u in nodes[..i] :: map[]
      invariant KeysOf(graph, keys)
    {
      var coord := nodes[i];
      if coord !in graph {
        keys := keys + [coord];
      }
      graph := graph[coord := map[]];
      assert nodes[..i + 1] == nodes[..i] + [coord];
      i := i + 1;
    }
    assert nodes[..i] == nodes;
  }

  /** One pass of the `routeGraph.edges.forEach` body, the keys of entries
      it creates appended in insertion order. */
  method InsertEdge<N(==,!new)>(graph0: Graph<N>, keys0: seq<N>, edge: Edge<N>) returns (graph: Graph<N>, keys: seq<N>)
    requires KeysOf(graph0, keys0)
    ensures graph == AddEdge(graph0, edge)
    ensures KeysOf(graph, keys)
  {
    graph, keys := graph0, keys0;
    var keyFrom, keyTo := edge.from, edge.to;
    if keyFrom !in graph {
      graph := graph[keyFrom := map[]];
      keys := keys + [keyFrom];
    }
    if keyTo !in graph {
      graph := graph[keyTo := map[]];
      keys := keys + [keyTo];
    }
    var w: nat := edge.weight;
    var rowFrom: map<N, nat> := graph[keyFrom][keyTo := w];
    graph := graph[keyFrom := rowFrom];
    var rowTo: map<N, nat> := graph[keyTo][keyFrom := w];
    graph := graph[keyTo := rowTo];
  }

  /** The first half of `findShortestPath`: `graph[coord] = {}` for every
      listed node, then both directions of every edge; also returns
      `Object.keys(graph)` in insertion order, which seeds the queue. */
  method BuildAdjacency<N(==,!new)>(nodes: seq<N>, edges: seq<Edge<N>>) returns (graph: Graph<N>, keys: seq<N>)
    ensures graph == Adjacency(nodes, edges)
    ensures forall i, j :: 0 <= i < j < |keys| ==> keys[i] != keys[j]
    ensures forall x :: x in keys <==> x in graph
  {
    graph, keys := EmptyEntries(nodes);
    var i := 0;
    while i < |edges|
      invariant 0 <= i <= |edges|
      invariant graph == Adjacency(nodes, edges[..i])
      invariant KeysOf(graph, keys)
    {
      graph, keys := InsertEdge(graph, keys, edges[i]);
      assert edges[..i + 1][..i] == edges[..i];
      i := i + 1;
    }
    assert edges[..i] == edges;
  }

  /** `Array.from(Q).reduce((minNode, node) => dist[node] < dist[minNode] ? node : minNode)`:
      the first queue entry with the least tentative distance. */
  method ExtractMin<N(==)>(Q: seq<N>, dist: map<N, nat>) returns (k: nat)
    requires |Q| > 0
    ensures k < |Q|
    ensures forall j :: 0 <= j < |Q| ==> Le(dist, Q[k], Q[j])
    ensures forall j :: 0 <= j < k ==> Less(dist, Q[k], Q[j])
  {
    k := 0;
    var i := 1;
    while i < |Q|
      invariant 1 <= i <= |Q| && k < i
      invariant forall j :: 0 <= j < i ==> Le(dist, Q[k], Q[j])
      invariant forall j :: 0 <= j < k ==> Less(dist, Q[k], Q[j])
    {
      if Less(dist, Q[i], Q[k]) {
        k := i;
      }
      i := i + 1;
    }
  }

  /** Every edge out of `u` whose target is no longer in `todo` is relaxed. */
  ghost predicate RelaxedExcept<N>(graph: Graph<N>, dist: map<N, nat>, u: N, todo: set<N>)
    requires u in graph
  {
    u in dist ==> forall v :: v in graph[u] && v !in todo ==> v in dist && dist[v] <= dist[u] + graph[u][v]
  }

  lemma RelaxedExceptStep<N>(graph: Graph<N>, before: map<N, nat>, after: map<N, nat>, u: N, todo: set<N>, v: N)
    requires u in graph && v in graph[u]
    requires RelaxedExcept(graph, before, u, todo)
    requires u in before ==> u in after && after[u] == before[u]
    requires u in before ==> v in after && after[v] <= after[u] + graph[u][v]
    requires forall x :: x in before ==> x in after && after[x] <= before[x]
    requires u in after ==> u in before
    ensures RelaxedExcept(graph, after, u, todo - {v})
  {
  }

  /** The inner `for (let neighbor in graph[u])` loop: relax every edge out
      of the node just extracted, keeping the loop invariant of the search. */
  method RelaxNeighbours<N(==,!new)>(graph: Graph<N>, ghost s: N, ghost Q: seq<N>, ghost done: set<N>,
                                     dist0: map<N, nat>, prev0: map<N, N>, ghost order: map<N, nat>, u: N)
    returns (dist: map<N, nat>, prev: map<N, N>)
    requires Inv(graph, s, Q, done, dist0, prev0, order, {u})
    requires u in done && u in graph && forall x :: x in done && x != u ==> order[x] < order[u]
    ensures Inv(graph, s, Q, done, dist, prev, order, {})
  {
    dist, prev := dist0, prev0;
    var todo := graph[u].Keys;
    while todo != {}
      invariant Inv(graph, s, Q, done, dist, prev, order, {u})
      invariant todo <= graph[u].Keys
      invariant RelaxedExcept(graph, dist, u, todo)
      decreases |todo|
    {
      var neighbor :| neighbor in todo;
      ghost var before := dist;
      dist, prev := Relax(graph, s, Q, done, dist, prev, order, u, neighbor, graph[u][neighbor]);
      RelaxedExceptStep(graph, before, dist, u, todo, neighbor);
      todo := todo - {neighbor};
    }
    FinishRelax(graph, s, Q, done, dist, prev, order, u);
  }

  /** `findShortestPath(startCoord, endCoord)`: Dijkstra over the adjacency
      built from `{nodes, edges}`, stopping once the end node is extracted,
      then the path rebuilt from `prev`. It never reports "no path": the
      result always ends at the end node, and is `[end]` alone when the end
      is unreachable (or equals the start). When the end is reachable the
      result is a path from the start, and no path between them is lighter. */
  method FindShortestPath<N(==,!new)>(nodes: seq<N>, edges: seq<Edge<N>>, startCoord: N, endCoord: N)
    returns (path: seq<N>)
    ensures SearchResult(Adjacency(nodes, edges), startCoord, endCoord, path)
  {
    var graph, keys := BuildAdjacency(nodes, edges);
    AdjacencySymmetric(nodes, edges);
    var Q := keys;
    var dist: map<N, nat> := map[startCoord := 0];
    var prev: map<N, N> := map[];
    ghost var done: set<N> := {};
    ghost var order: map<N, nat> := map[];
    ghost var pending: set<N> := {};
    InitialState(graph, startCoord, Q);
    while |Q| > 0
      invariant Inv(graph, startCoord, Q, done, dist, prev, order, {})
      invariant pending == {}
      decreases |Q|
    {
      var k := ExtractMin(Q, dist);
      var u := Q[k];
      ExtractStep(graph, startCoord, Q, done, dist, prev, order, k);
      assert forall x :: x in done ==> order[x] < |done|;
      done, order := done + {u}, order[u := |done|];
      Q := Q[..k] + Q[k + 1..];
      if u == endCoord {
        pending := {u};
        break;
      }
      dist, prev := RelaxNeighbours(graph, startCoord, Q, done, dist, prev, order, u);
    }
    assert Inv(graph, startCoord, Q, done, dist, prev, order, pending);
    assert endCoord in prev ==> endCoord in done;
    path := Reconstruct(prev, endCoord, graph, startCoord, dist, done, order);
    ShortestAtExit(graph, startCoord, Q, done, dist, prev, order, pending, endCoord, path);
  }
}
