/** final_script_debug_safe.js: `buildGraph`, `dijkstra` and
    `findNearestGraphNode`. Unlike script.js, the adjacency here is a `Map`
    from node key to a list of `{node, weight}` records, one per edge
    direction, so two edges between the same nodes give two records, and
    only edge endpoints become keys. */
module SafeGraph {
  import opened Geo
  import opened Routing
  import opened DijkstraSteps
  import Nearest

  /** One `{ node, weight }` record of an adjacency list. */
  datatype Arc<N> = Arc(node: N, weight: nat)

  /** The adjacency `Map` `buildGraph` returns. */
  type ArcGraph<N> = map<N, seq<Arc<N>>>

  /** The nodes that are an endpoint of some edge. */
  function Endpoints<N(==)>(edges: seq<Edge<N>>): set<N>
  {
    (set e | e in edges :: e.from) + (set e | e in edges :: e.to)
  }

  /** The list `buildGraph` leaves under key `u`: for every edge in order, a
      record for its far end when it leaves `u`, then one for its near end
      when it enters `u` (a loop on `u` gives two records). */
  function Arcs<N(==)>(edges: seq<Edge<N>>, u: N): seq<Arc<N>>
  {
    if edges == [] then []
    else
      var e := edges[|edges| - 1];
      Arcs(edges[..|edges| - 1], u)
        + (if e.from == u then [Arc(e.to, e.weight)] else [])
        + (if e.to == u then [Arc(e.from, e.weight)] else [])
  }

  /** Every record names an endpoint, and only an endpoint has records. */
  lemma {:induction false} ArcsEndpoints<N>(edges: seq<Edge<N>>, u: N)
    ensures forall a :: a in Arcs(edges, u) ==> a.node in Endpoints(edges)
    ensures Arcs(edges, u) != [] ==> u in Endpoints(edges)
  {
    if edges != [] {
      var init := edges[..|edges| - 1];
      ArcsEndpoints(init, u);
      assert forall e :: e in init ==> e in edges;
    }
  }

  /** The whole `Map`: a list per edge endpoint. */
  function BuiltGraph<N(==)>(edges: seq<Edge<N>>): ArcGraph<N>
  {
    map u | u in Endpoints(edges) :: Arcs(edges, u)
  }

  /** The keys are exactly the edge endpoints, and every record names a key. */
  lemma BuiltGraphKeys<N>(edges: seq<Edge<N>>)
    ensures forall u :: u in BuiltGraph(edges) ==> Endpoint(edges, u)
    ensures forall i :: 0 <= i < |edges| ==> edges[i].from in BuiltGraph(edges) && edges[i].to in BuiltGraph(edges)
    ensures forall u, a :: u in BuiltGraph(edges) && a in BuiltGraph(edges)[u] ==> a.node in BuiltGraph(edges)
  {
    forall u | u in BuiltGraph(edges) ensures Endpoint(edges, u) {
      var e :| e in edges && (e.from == u || e.to == u);
      var i :| 0 <= i < |edges| && edges[i] == e;
    }
    forall u, a | u in BuiltGraph(edges) && a in BuiltGraph(edges)[u] ensures a.node in BuiltGraph(edges) {
      ArcsEndpoints(edges, u);
    }
  }

  /** `if (!graph.has(key)) graph.set(key, []); graph.get(key).push(arc)`. */
  function Push<N(==)>(graph: ArcGraph<N>, key: N, arc: Arc<N>): ArcGraph<N>
  {
    graph[key := (if key in graph then graph[key] else []) + [arc]]
  }

  /** One more edge adds its two ends to the endpoints. */
  lemma EndpointsStep<N>(edges: seq<Edge<N>>, i: nat)
    requires i < |edges|
    ensures Endpoints(edges[..i + 1]) == Endpoints(edges[..i]) + {edges[i].from, edges[i].to}
  {
    assert edges[..i + 1] == edges[..i] + [edges[i]];
  }

  /** Pushing one more edge in both directions gives the map of the longer
      edge list. */
  lemma BuiltGraphStep<N>(edges: seq<Edge<N>>, i: nat)
    requires i < |edges|
    ensures BuiltGraph(edges[..i + 1])
      == Push(Push(BuiltGraph(edges[..i]), edges[i].from, Arc(edges[i].to, edges[i].weight)),
              edges[i].to, Arc(edges[i].from, edges[i].weight))
  {
    var e := edges[i];
    var pre, next := BuiltGraph(edges[..i]), BuiltGraph(edges[..i + 1]);
    var pushed := Push(Push(pre, e.from, Arc(e.to, e.weight)), e.to, Arc(e.from, e.weight));
    EndpointsStep(edges, i);
    assert next.Keys == pushed.Keys;
    forall u | u in next ensures next[u] == pushed[u] {
      assert edges[..i + 1][..i] == edges[..i] && edges[..i + 1][i] == e;
      if u !in pre {
        ArcsEndpoints(edges[..i], u);
      }
    }
  }


  /** `buildGraph(graphData)`: walks the edges once, creating a key's list
      on first sight and pushing one record in each direction. Also returns
      the keys in the order they were first seen, which is the `Map`'s
      iteration order. */
  method BuildGraph<N(==)>(edges: seq<Edge<N>>) returns (graph: ArcGraph<N>, keys: seq<N>)
    ensures graph == BuiltGraph(edges)
    ensures forall i, j :: 0 <= i < j < |keys| ==> keys[i] != keys[j]
    ensures forall x :: x in keys <==> x in graph
  {
    graph, keys := map[], [];
    var i := 0;
    while i < |edges|
      invariant 0 <= i <= |edges|
      invariant graph == BuiltGraph(edges[..i])
      invariant forall a, b :: 0 <= a < b < |keys| ==> keys[a] != keys[b]
      invariant forall x :: x in keys <==> x in graph
    {
      var edge := edges[i];
      var fromKey, toKey, weight := edge.from, edge.to, edge.weight;
      if fromKey !in graph {
        keys := keys + [fromKey];
      }
      graph := Push(graph, fromKey, Arc(toKey, weight));
      if toKey !in graph {
        keys := keys + [toKey];
      }
      graph := Push(graph, toKey, Arc(fromKey, weight));
      BuiltGraphStep(edges, i);
      i := i + 1;
    }
    assert edges[..i] == edges;
  }

  /** Every edge is pushed in both directions: the records `v` keeps back
      to `u` match, weight for weight and in number, the records `u` keeps
      to `v`. */
  lemma {:induction false} ArcsSymmetric<N>(edges: seq<Edge<N>>, u: N, v: N, w: nat)
    ensures multiset(Arcs(edges, u))[Arc(v, w)] == multiset(Arcs(edges, v))[Arc(u, w)]
  {
    if edges != [] {
      var init, e := edges[..|edges| - 1], edges[|edges| - 1];
      ArcsSymmetric(init, u, v, w);
      var outU: seq<Arc<N>> := if e.from == u then [Arc(e.to, e.weight)] else [];
      var inU: seq<Arc<N>> := if e.to == u then [Arc(e.from, e.weight)] else [];
      var outV: seq<Arc<N>> := if e.from == v then [Arc(e.to, e.weight)] else [];
      var inV: seq<Arc<N>> := if e.to == v then [Arc(e.from, e.weight)] else [];
      assert Arcs(edges, u) == Arcs(init, u) + outU + inU;
      assert Arcs(edges, v) == Arcs(init, v) + outV + inV;
      assert multiset(outU)[Arc(v, w)] == multiset(inV)[Arc(u, w)];
      assert multiset(inU)[Arc(v, w)] == multiset(outV)[Arc(u, w)];
    }
  }

  /** The neighbours an adjacency list mentions. */
  function Targets<N>(arcs: seq<Arc<N>>): set<N>
  {
    set a | a in arcs :: a.node
  }

  /** The weight of the lightest record for `v`: it is one of the records,
      and no record for `v` is lighter. */
  function Lightest<N(==)>(arcs: seq<Arc<N>>, v: N): (w: nat)
    requires v in Targets(arcs)
    ensures Arc(v, w) in arcs
    ensures forall a :: a in arcs && a.node == v ==> w <= a.weight
  {
    var init, last := arcs[..|arcs| - 1], arcs[|arcs| - 1];
    assert arcs == init + [last];
    if v !in Targets(init) then
      assert forall a :: a in init ==> a.node != v;
      last.weight
    else if last.node == v && last.weight < Lightest(init, v) then last.weight
    else Lightest(init, v)
  }

  /** The simple graph the search in effect runs on: from each key, to each
      neighbour its list mentions, the lightest of the parallel records.
      Relaxing every record of a list relaxes in particular the lightest one
      to each neighbour, and relaxing a heavier one changes nothing more. */
  function Collapse<N(==)>(graph: ArcGraph<N>): Graph<N>
  {
    map u | u in graph :: map v | v in Targets(graph[u]) :: Lightest(graph[u], v)
  }

  lemma LightestBackward<N>(edges: seq<Edge<N>>, u: N, v: N)
    requires v in Targets(Arcs(edges, u))
    ensures u in Targets(Arcs(edges, v))
    ensures Lightest(Arcs(edges, v), u) <= Lightest(Arcs(edges, u), v)
  {
    var w := Lightest(Arcs(edges, u), v);
    ArcsSymmetric(edges, u, v, w);
    assert Arc(u, w) in multiset(Arcs(edges, v));
    assert Arc(u, w) in Arcs(edges, v);
  }

  /** The graph the search runs on is undirected: an edge one way is an
      edge of the same weight the other way, and every neighbour is a key. */
  /** A neighbour of `u` among its arcs is an endpoint with `u` among its
      own arcs, at the same lightest weight. */
  lemma ArcsPair<N>(edges: seq<Edge<N>>, u: N, v: N)
    requires v in Targets(Arcs(edges, u))
    ensures v in Endpoints(edges) && u in Targets(Arcs(edges, v))
    ensures Lightest(Arcs(edges, v), u) == Lightest(Arcs(edges, u), v)
  {
    LightestBackward(edges, u, v);
    LightestBackward(edges, v, u);
    ArcsEndpoints(edges, v);
  }

  lemma CollapseSymmetric<N>(edges: seq<Edge<N>>)
    ensures Closed(Collapse(BuiltGraph(edges)))
    ensures forall u, v :: u in Collapse(BuiltGraph(edges)) && v in Collapse(BuiltGraph(edges))[u] ==>
      && v in Collapse(BuiltGraph(edges)) && u in Collapse(BuiltGraph(edges))[v]
      && Collapse(BuiltGraph(edges))[v][u] == Collapse(BuiltGraph(edges))[u][v]
  {
    var graph := BuiltGraph(edges);
    var g := Collapse(graph);
    BuiltGraphKeys(edges);
    CollapseClosed(graph);
    forall u, v | u in g && v in g[u] ensures v in g && u in g[v] && g[v][u] == g[u][v] {
      assert u in graph && graph[u] == Arcs(edges, u);
      ArcsPair(edges, u, v);
      assert v in graph && graph[v] == Arcs(edges, v);
    }
  }

  /** When every record names a key, the collapsed graph is closed too. */
  lemma CollapseClosed<N>(graph: ArcGraph<N>)
    requires forall u, a :: u in graph && a in graph[u] ==> a.node in graph
    ensures Closed(Collapse(graph))
  {
    forall u, v | u in Collapse(graph) && v in Collapse(graph)[u] ensures v in Collapse(graph) {
      var a :| a in graph[u] && a.node == v;
    }
  }

  /** `[...queue].reduce((a, b) => (distances[a] < distances[b] ? a : b))`:
      the running choice is kept only while strictly nearer, so among
      equally near entries the last one is taken. */
  method ExtractMin<N(==)>(Q: seq<N>, dist: map<N, nat>) returns (k: nat)
    requires |Q| > 0
    ensures k < |Q|
    ensures forall j :: 0 <= j < |Q| ==> Le(dist, Q[k], Q[j])
    ensures forall j :: k < j < |Q| ==> Less(dist, Q[k], Q[j])
  {
    k := 0;
    var i := 1;
    while i < |Q|
      invariant 1 <= i <= |Q| && k < i
      invariant forall j :: 0 <= j < i ==> Le(dist, Q[k], Q[j])
      invariant forall j :: k < j < i ==> Less(dist, Q[k], Q[j])
    {
      if !Less(dist, Q[k], Q[i]) {
        k := i;
      }
      i := i + 1;
    }
  }

  /** Every record of `arcs` is relaxed against `dist[u]`. */
  ghost predicate ArcsRelaxed<N>(dist: map<N, nat>, u: N, arcs: seq<Arc<N>>)
  {
    u in dist ==> forall a :: a in arcs ==> a.node in dist && dist[a.node] <= dist[u] + a.weight
  }

  lemma ArcsRelaxedStep<N>(before: map<N, nat>, after: map<N, nat>, u: N, arcs: seq<Arc<N>>, i: nat)
    requires i < |arcs| && ArcsRelaxed(before, u, arcs[..i])
    requires u in after <==> u in before
    requires u in before ==>
      after[u] == before[u] && arcs[i].node in after && after[arcs[i].node] <= after[u] + arcs[i].weight
    requires forall x :: x in before ==> x in after && after[x] <= before[x]
    ensures ArcsRelaxed(after, u, arcs[..i + 1])
  {
    assert arcs[..i + 1] == arcs[..i] + [arcs[i]];
  }

  /** Relaxing every record relaxes every edge of the collapsed graph. */
  lemma ArcsRelaxedAll<N>(graph: ArcGraph<N>, dist: map<N, nat>, u: N)
    requires u in graph && ArcsRelaxed(dist, u, graph[u])
    ensures u in dist && u in Collapse(graph) ==> forall v :: v in Collapse(graph)[u] ==>
      v in dist && dist[v] <= dist[u] + Collapse(graph)[u][v]
  {
    forall v | u in dist && v in Collapse(graph)[u]
      ensures v in dist && dist[v] <= dist[u] + Collapse(graph)[u][v]
    {
      assert Arc(v, Lightest(graph[u], v)) in graph[u];
    }
  }

  /** The inner `for (const neighbor of graph.get(current))` loop: one
      relaxation per record, in list order. */
  method RelaxArcs<N(==,!new)>(graph: ArcGraph<N>, ghost s: N, ghost Q: seq<N>, ghost done: set<N>,
                               dist0: map<N, nat>, prev0: map<N, N>, ghost order: map<N, nat>, current: N)
    returns (dist: map<N, nat>, prev: map<N, N>)
    requires Inv(Collapse(graph), s, Q, done, dist0, prev0, order, {current})
    requires current in done && current in graph
    requires forall x :: x in done && x != current ==> order[x] < order[current]
    ensures Inv(Collapse(graph), s, Q, done, dist, prev, order, {})
  {
    ghost var g := Collapse(graph);
    dist, prev := dist0, prev0;
    var arcs := graph[current];
    var i := 0;
    while i < |arcs|
      invariant 0 <= i <= |arcs|
      invariant Inv(g, s, Q, done, dist, prev, order, {current})
      invariant ArcsRelaxed(dist, current, arcs[..i])
    {
      var neighbor := arcs[i];
      assert neighbor.node in Targets(arcs);
      assert neighbor.node in g[current] && g[current][neighbor.node] <= neighbor.weight;
      ghost var before := dist;
      dist, prev := Relax(g, s, Q, done, dist, prev, order, current, neighbor.node, neighbor.weight);
      ArcsRelaxedStep(before, dist, current, arcs, i);
      i := i + 1;
    }
    assert arcs[..i] == arcs;
    ArcsRelaxedAll(graph, dist, current);
    FinishRelax(g, s, Q, done, dist, prev, order, current);
  }

  /** `dijkstra(graph, start, end)`: the queue is the `Map`'s keys in
      insertion order, the search stops once `end` is extracted, and the
      path is rebuilt from `prev`. The result always ends at `end`; it is
      `[end]` alone when `end` is unreachable or is the start, and otherwise
      a path from `start` than which no path is lighter, a step between two
      nodes weighing as much as the lightest parallel edge. */
  method Dijkstra<N(==,!new)>(graph: ArcGraph<N>, keys: seq<N>, start: N, end: N) returns (path: seq<N>)
    requires forall i, j :: 0 <= i < j < |keys| ==> keys[i] != keys[j]
    requires forall x :: x in keys <==> x in graph
    requires forall u, a :: u in graph && a in graph[u] ==> a.node in graph
    ensures SearchResult(Collapse(graph), start, end, path)
  {
    ghost var g := Collapse(graph);
    CollapseClosed(graph);
    var queue := keys;
    var distances: map<N, nat> := map[start := 0];
    var prev: map<N, N> := map[];
    ghost var done: set<N> := {};
    ghost var order: map<N, nat> := map[];
    ghost var pending: set<N> := {};
    InitialState(g, start, queue);
    while |queue| > 0
      invariant Inv(g, start, queue, done, distances, prev, order, {})
      invariant pending == {}
      decreases |queue|
    {
      var k := ExtractMin(queue, distances);
      var current := queue[k];
      ExtractStep(g, start, queue, done, distances, prev, order, k);
      assert forall x :: x in done ==> order[x] < |done|;
      done, order := done + {current}, order[current := |done|];
      queue := queue[..k] + queue[k + 1..];
      if current == end {
        pending := {current};
        break;
      }
      distances, prev := RelaxArcs(graph, start, queue, done, distances, prev, order, current);
    }
    assert Inv(g, start, queue, done, distances, prev, order, pending);
    assert end in prev ==> end in done;
    path := Reconstruct(prev, end, g, start, distances, done, order);
    ShortestAtExit(g, start, queue, done, distances, prev, order, pending, end, path);
  }

  /** `node` is the first entry of `graphNodes` that is at least as near to
      `lngLat` as every entry. */
  ghost predicate NearestNode(graphNodes: seq<LngLat>, distance: (LngLat, LngLat) -> real, lngLat: LngLat, node: LngLat)
  {
    exists k ::
      && 0 <= k < |graphNodes| && graphNodes[k] == node
      && (forall i :: 0 <= i < |graphNodes| ==> distance(lngLat, graphNodes[k]) <= distance(lngLat, graphNodes[i]))
      && (forall i :: 0 <= i < k ==> distance(lngLat, graphNodes[k]) < distance(lngLat, graphNodes[i]))
  }

  /** `findNearestGraphNode(lngLat, graphNodes)`: the running minimum of the
      distance from `lngLat` over the node list under a strict `<`, so the
      first of equally near nodes; `null` for an empty list. */
  method FindNearestGraphNode(lngLat: LngLat, graphNodes: seq<LngLat>, distance: (LngLat, LngLat) -> real)
    returns (closest: Option<LngLat>)
    ensures closest.None? <==> |graphNodes| == 0
    ensures closest.Some? ==> NearestNode(graphNodes, distance, lngLat, closest.value)
  {
    var dist, admit := node => distance(lngLat, node), node => true;
    var best := Nearest.NearestIndex(graphNodes, dist, admit);
    assert |graphNodes| > 0 ==> admit(graphNodes[0]);
    if best.Some? {
      closest := Some(graphNodes[best.value]);
      assert Nearest.IsFirstNearest(graphNodes, dist, admit, best.value);
    } else {
      closest := None;
    }
  }

  /** `edgeGeometry`: the stored polyline of an edge, looked up by the pair
      of its end nodes (the key `${JSON.stringify(from)}|${JSON.stringify(to)}`). */
  type GeometryTable = map<(LngLat, LngLat), seq<LngLat>>

  /** What one consecutive pair of path nodes contributes: the geometry
      stored under the forward key, else the one under the reverse key, in
      stored order either way, each point swapped to `[lat, lng]`; and with
      neither, the two end nodes swapped. */
  function Piece(geometry: GeometryTable, from: LngLat, to: LngLat): seq<LatLng>
  {
    if (from, to) in geometry then AllToLatLng(geometry[(from, to)])
    else if (to, from) in geometry then AllToLatLng(geometry[(to, from)])
    else [ToLatLng(from), ToLatLng(to)]
  }

  /** The pieces of the consecutive pairs `path[lo]`-`path[lo + 1]` up to
      `path[hi - 1]`-`path[hi]`, in path order. */
  function Pieces(geometry: GeometryTable, path: seq<LngLat>, lo: nat, hi: nat): seq<LatLng>
    requires lo <= hi < |path|
    decreases hi - lo
  {
    if lo == hi then []
    else Pieces(geometry, path, lo, hi - 1) + Piece(geometry, path[hi - 1], path[hi])
  }

  /** The pieces of all consecutive pairs of `path`, in path order. */
  function Expansion(geometry: GeometryTable, path: seq<LngLat>): seq<LatLng>
  {
    if |path| == 0 then [] else Pieces(geometry, path, 0, |path| - 1)
  }

  /** The pieces between two nodes are those up to any node in between
      followed by those from it on. */
  lemma {:induction false} PiecesSplit(geometry: GeometryTable, path: seq<LngLat>, lo: nat, mid: nat, hi: nat)
    requires lo <= mid <= hi < |path|
    ensures Pieces(geometry, path, lo, hi) == Pieces(geometry, path, lo, mid) + Pieces(geometry, path, mid, hi)
    decreases hi
  {
    if mid < hi {
      PiecesSplit(geometry, path, lo, mid, hi - 1);
    }
  }

  /** A prefix of `path` has the same pieces as `path` where both have them. */
  lemma {:induction false} PiecesPrefix(geometry: GeometryTable, path: seq<LngLat>, n: nat, hi: nat)
    requires hi < n <= |path|
    ensures Pieces(geometry, path[..n], 0, hi) == Pieces(geometry, path, 0, hi)
  {
    if hi > 0 {
      PiecesPrefix(geometry, path, n, hi - 1);
      assert path[..n][hi - 1] == path[hi - 1] && path[..n][hi] == path[hi];
    }
  }

  /** The suffix of `path` from `start` has the pieces of `path`, shifted by `start`. */
  lemma {:induction false} PiecesSuffix(geometry: GeometryTable, path: seq<LngLat>, start: nat, lo: nat, hi: nat)
    requires start + lo <= start + hi < |path|
    ensures Pieces(geometry, path[start..], lo, hi) == Pieces(geometry, path, start + lo, start + hi)
    decreases hi
  {
    if lo < hi {
      PiecesSuffix(geometry, path, start, lo, hi - 1);
      assert path[start..][hi - 1] == path[start + hi - 1] && path[start..][hi] == path[start + hi];
    }
  }

  /** The expansion of a path is the expansion of its part up to any node
      followed by that of its part from that node on. */
  lemma {:induction false} ExpansionSplit(geometry: GeometryTable, path: seq<LngLat>, i: nat)
    requires i < |path|
    ensures Expansion(geometry, path) == Expansion(geometry, path[..i + 1]) + Expansion(geometry, path[i..])
  {
    var n := |path| - 1;
    PiecesSplit(geometry, path, 0, i, n);
    PiecesPrefix(geometry, path, i + 1, i);
    PiecesSuffix(geometry, path, i, 0, n - i);
    assert Expansion(geometry, path[..i + 1]) == Pieces(geometry, path[..i + 1], 0, i);
    assert Expansion(geometry, path[i..]) == Pieces(geometry, path[i..], 0, n - i);
  }

  /** With no stored geometry for any pair of the path, the pieces are the
      chain of chords: positions `2j` and `2j + 1` hold the swapped nodes
      `path[j]` and `path[j + 1]`. */
  lemma {:induction false} ChordPieces(geometry: GeometryTable, path: seq<LngLat>, hi: nat)
    requires hi < |path|
    requires forall i :: 0 <= i < |path| - 1 ==> (path[i], path[i + 1]) !in geometry && (path[i + 1], path[i]) !in geometry
    ensures |Pieces(geometry, path, 0, hi)| == 2 * hi
    ensures forall j :: 0 <= j < hi ==>
      Pieces(geometry, path, 0, hi)[2 * j] == ToLatLng(path[j]) && Pieces(geometry, path, 0, hi)[2 * j + 1] == ToLatLng(path[j + 1])
  {
    if hi > 0 {
      ChordPieces(geometry, path, hi - 1);
    }
  }

  /** With no stored geometry for any pair of the path, the expansion is the
      chain of chords: positions `2i` and `2i + 1` hold the swapped nodes
      `path[i]` and `path[i + 1]`. */
  lemma {:induction false} ChordChain(geometry: GeometryTable, path: seq<LngLat>)
    requires forall i :: 0 <= i < |path| - 1 ==> (path[i], path[i + 1]) !in geometry && (path[i + 1], path[i]) !in geometry
    ensures |path| >= 1 ==> |Expansion(geometry, path)| == 2 * (|path| - 1)
    ensures forall i :: 0 <= i < |path| - 1 ==>
      Expansion(geometry, path)[2 * i] == ToLatLng(path[i]) && Expansion(geometry, path)[2 * i + 1] == ToLatLng(path[i + 1])
  {
    if |path| >= 1 {
      ChordPieces(geometry, path, |path| - 1);
    }
  }

  /** The `for (let i = 0; i < path.length - 1; i++)` loop of `addPoint`:
      `routeSegment` collects the piece of every consecutive pair. */
  method ExpandPath(path: seq<LngLat>, edgeGeometry: GeometryTable) returns (routeSegment: seq<LatLng>)
    ensures routeSegment == Expansion(edgeGeometry, path)
  {
    routeSegment := [];
    var i := 0;
    while i < |path| - 1
      invariant 0 <= i <= if |path| == 0 then 0 else |path| - 1
      invariant routeSegment == if |path| == 0 then [] else Pieces(edgeGeometry, path, 0, i)
    {
      var from, to := path[i], path[i + 1];
      var segment: Option<seq<LngLat>> :=
        if (from, to) in edgeGeometry then Some(edgeGeometry[(from, to)])
        else if (to, from) in edgeGeometry then Some(edgeGeometry[(to, from)])
        else None;
      if segment.Some? {
        routeSegment := routeSegment + AllToLatLng(segment.value);
      } else {
        routeSegment := routeSegment + [ToLatLng(path[i]), ToLatLng(path[i + 1])];
      }
      i := i + 1;
    }
  }
}
