/** final_script_debug_safe.js: `addPoint` snapping only onto `LineString`
    features within 0.5 km, tying each snapped point to its nearest graph
    node, and drawing each leg along the shortest graph path, expanded
    through the stored edge geometry. The route data, the graph and the
    geometry table are taken as already loaded. */
module SafeSession {
  import opened Geo
  import opened Routing
  import opened Stitch
  import opened SafeGraph

  /** `{ latlng: snappedLatLng, feature: snappedFeature, graphNode: nearestNode }`. */
  datatype GraphSnap = GraphSnap(latlng: LatLng, feature: Feature, graphNode: LngLat)

  /** The snap filter of this script: a `LineString` whose projection lies
      less than 0.5 km from the click. */
  function LineWithinHalfKm(project: (Feature, LngLat) -> Projection, point: LngLat): Feature -> bool
  {
    (f: Feature) => f.geometryType == "LineString" && project(f, point).dist < 0.5
  }

  /** The line drawn for a leg between two snapped points: the first
      snapped point, the expansion of `path`, the second snapped point. */
  function GraphLeg(start: GraphSnap, end: GraphSnap, path: seq<LngLat>, edgeGeometry: GeometryTable)
    : (line: seq<LatLng>)
    ensures |line| >= 2 && line[0] == start.latlng && line[|line| - 1] == end.latlng
    ensures line[1..|line| - 1] == Expansion(edgeGeometry, path)
  {
    [start.latlng] + Expansion(edgeGeometry, path) + [end.latlng]
  }

  /** The lines pushed for one leg when the drawing sits inside the loop
      over the path's edges, where the text of final_script_debug_safe.js
      places it: after edge `i`, a line through the expansion of
      `path[..i + 2]`. One line per edge, none for a one-node path. */
  function LinesPerEdge(start: GraphSnap, end: GraphSnap, path: seq<LngLat>, edgeGeometry: GeometryTable)
    : (lines: seq<seq<LatLng>>)
    ensures |lines| == if |path| < 2 then 0 else |path| - 1
  {
    if |path| < 2 then []
    else LinesPerEdge(start, end, path[..|path| - 1], edgeGeometry) + [GraphLeg(start, end, path, edgeGeometry)]
  }

  /** With the drawing inside the edge loop, a leg along three nodes pushes
      two lines, the first ending its route at the middle node, and a leg
      whose two snaps share a graph node pushes none. */
  lemma {:induction false} PerEdgeDrawingMisdraws(start: GraphSnap, end: GraphSnap, a: LngLat, b: LngLat, c: LngLat,
                                                  edgeGeometry: GeometryTable)
    ensures LinesPerEdge(start, end, [a, b, c], edgeGeometry)
         == [GraphLeg(start, end, [a, b], edgeGeometry), GraphLeg(start, end, [a, b, c], edgeGeometry)]
    ensures LinesPerEdge(start, end, [a], edgeGeometry) == []
  {
    assert [a, b, c][..2] == [a, b];
    assert [a, b][..1] == [a];
  }

  /** `routeGraph` with its keys listed once each, in `Map` order, as
      `buildGraph` leaves them. */
  ghost predicate GraphReady(routeGraph: ArcGraph<LngLat>, graphKeys: seq<LngLat>)
  {
    && (forall i, j :: 0 <= i < j < |graphKeys| ==> graphKeys[i] != graphKeys[j])
    && (forall x :: x in graphKeys <==> x in routeGraph)
    && (forall u, a :: u in routeGraph && a in routeGraph[u] ==> a.node in routeGraph)
  }

  /** `snap` is what the snapping half of `addPoint` yields for a click at
      `latlng`: nothing exactly when no `LineString` lies within 0.5 km or
      there is no graph node; otherwise the first nearest such line, tied to
      the first graph node nearest to the snapped point. */
  ghost predicate GraphSnapOf(routes: Option<seq<Feature>>, graphNodes: seq<LngLat>, latlng: LatLng,
                              project: (Feature, LngLat) -> Projection, distance: (LngLat, LngLat) -> real,
                              snap: Option<GraphSnap>)
  {
    && (snap.Some? <==>
          && routes.Some? && |graphNodes| > 0
          && exists i :: 0 <= i < |routes.value| && LineWithinHalfKm(project, ToLngLat(latlng))(routes.value[i]))
    && (snap.Some? ==>
          && SnapsTo(routes.value, project, ToLngLat(latlng), LineWithinHalfKm(project, ToLngLat(latlng)),
                     SnappedPoint(snap.value.latlng, snap.value.feature))
          && NearestNode(graphNodes, distance, ToLngLat(snap.value.latlng), snap.value.graphNode))
  }

  /** The snapping half of `addPoint`: the nearest `LineString` within
      0.5 km of the click, tied to the graph node nearest to the snapped
      point; `None` when no line is near enough or there is no graph node. */
  method SnapToGraph(routes: Option<seq<Feature>>, graphNodes: seq<LngLat>, latlng: LatLng,
                     project: (Feature, LngLat) -> Projection, distance: (LngLat, LngLat) -> real)
    returns (snap: Option<GraphSnap>)
    ensures GraphSnapOf(routes, graphNodes, latlng, project, distance, snap)
  {
    var point := ToLngLat(latlng);
    var closest: Option<SnappedPoint> := None;
    if routes.Some? {
      closest := Snap(routes.value, project, point, LineWithinHalfKm(project, point));
    }
    if closest.None? {
      return None;
    }
    var snappedCoords := ToLngLat(closest.value.latlng);
    var nearestNode := FindNearestGraphNode(snappedCoords, graphNodes, distance);
    if nearestNode.None? {
      return None;
    }
    var snappedLatLng := ToLatLng(snappedCoords);
    snap := Some(GraphSnap(snappedLatLng, closest.value.feature, nearestNode.value));
  }

  /** `line` runs from `start` along a shortest path between the two graph
      nodes, through the expansion of that path, to `end`. */
  ghost predicate ShortestLeg(routeGraph: ArcGraph<LngLat>, edgeGeometry: GeometryTable,
                              start: GraphSnap, end: GraphSnap, line: seq<LatLng>)
  {
    exists path ::
      && SearchResult(Collapse(routeGraph), start.graphNode, end.graphNode, path)
      && line == GraphLeg(start, end, path, edgeGeometry)
  }

  /** The drawing half of `addPoint`: the line from the first snapped point
      along a shortest path between the two graph nodes, through the stored
      geometry of its edges, to the second snapped point. */
  method DrawLeg(routeGraph: ArcGraph<LngLat>, graphKeys: seq<LngLat>, edgeGeometry: GeometryTable,
                 start: GraphSnap, end: GraphSnap)
    returns (line: seq<LatLng>)
    requires GraphReady(routeGraph, graphKeys)
    ensures ShortestLeg(routeGraph, edgeGeometry, start, end, line)
  {
    var path := Dijkstra(routeGraph, graphKeys, start.graphNode, end.graphNode);
    var routeSegment := ExpandPath(path, edgeGeometry);
    line := [start.latlng] + routeSegment + [end.latlng];
  }

  class Session {
    var selectedPoints: seq<LatLng>
    var snappedPoints: seq<GraphSnap>
    var routeLines: seq<seq<LatLng>>
    var flightRouteData: Option<seq<Feature>>
    var graphNodes: seq<LngLat>
    var routeGraph: ArcGraph<LngLat>
    var graphKeys: seq<LngLat>
    var edgeGeometry: GeometryTable

    ghost predicate Valid()
      reads this
    {
      GraphReady(routeGraph, graphKeys)
    }

    /** The state once `loadFlightRoutes`, `loadRouteGraph` and the geometry
      fetch have all completed. */
    constructor (routes: Option<seq<Feature>>, nodes: seq<LngLat>, edges: seq<Edge<LngLat>>, geometry: GeometryTable)
      ensures Valid()
      ensures selectedPoints == [] && snappedPoints == [] && routeLines == []
      ensures flightRouteData == routes && graphNodes == nodes && edgeGeometry == geometry
      ensures routeGraph == BuiltGraph(edges)
    {
      var graph, keys := BuildGraph(edges);
      BuiltGraphKeys(edges);
      selectedPoints, snappedPoints, routeLines := [], [], [];
      flightRouteData, graphNodes, edgeGeometry := routes, nodes, geometry;
      routeGraph, graphKeys := graph, keys;
    }

    /** `addPoint(e)`: record the click; snap it onto the nearest `LineString`
      within 0.5 km and tie the snap to the graph node nearest to it, or stop
      when either is missing; and once two snapped points exist, push the
      leg between the last two along the path `dijkstra` finds. */
    method AddPoint(latlng: LatLng, project: (Feature, LngLat) -> Projection, distance: (LngLat, LngLat) -> real)
      requires Valid()
      modifies this
      ensures Valid()
      ensures selectedPoints == old(selectedPoints) + [latlng]
      ensures flightRouteData == old(flightRouteData) && graphNodes == old(graphNodes)
      ensures routeGraph == old(routeGraph) && graphKeys == old(graphKeys) && edgeGeometry == old(edgeGeometry)
      ensures |snappedPoints| == |old(snappedPoints)| ==>
        snappedPoints == old(snappedPoints) && GraphSnapOf(flightRouteData, graphNodes, latlng, project, distance, None)
      ensures |snappedPoints| != |old(snappedPoints)| ==>
        && |snappedPoints| == |old(snappedPoints)| + 1 && snappedPoints[..|old(snappedPoints)|] == old(snappedPoints)
        && GraphSnapOf(flightRouteData, graphNodes, latlng, project, distance, Some(snappedPoints[|snappedPoints| - 1]))
      ensures |snappedPoints| == |old(snappedPoints)| || |snappedPoints| < 2 ==> routeLines == old(routeLines)
      ensures |snappedPoints| != |old(snappedPoints)| && |snappedPoints| >= 2 ==>
        && |routeLines| == |old(routeLines)| + 1 && routeLines[..|old(routeLines)|] == old(routeLines)
        && ShortestLeg(routeGraph, edgeGeometry, snappedPoints[|snappedPoints| - 2], snappedPoints[|snappedPoints| - 1],
                       routeLines[|routeLines| - 1])
    {
      var snap := SnapToGraph(flightRouteData, graphNodes, latlng, project, distance);
      var snapped, lines := snappedPoints, routeLines;
      if snap.Some? {
        snapped := snapped + [snap.value];
        assert snapped[..|snappedPoints|] == snappedPoints;
        if |snapped| >= 2 {
          var line := DrawLeg(routeGraph, graphKeys, edgeGeometry, snapped[|snapped| - 2], snapped[|snapped| - 1]);
          lines := lines + [line];
          assert lines[..|routeLines|] == routeLines;
        }
      }
      selectedPoints, snappedPoints, routeLines := selectedPoints + [latlng], snapped, lines;
    }
  }
}
