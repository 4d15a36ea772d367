# GCMC Flight Planner: route snapping and graph routing in Dafny

The flight planner is a Leaflet page. The user clicks waypoints on a map.
Each click is snapped onto the nearest published flight route (a GeoJSON
feature). Consecutive snapped points are then joined by a drawn leg. This
project models the logic behind those legs in four scripts:

- `script.js`: each leg is cut out of the snapped start's feature with
  `turf.lineSlice`. The script also carries a Dijkstra search over the
  route graph (`findNearestNode`, `findShortestPath`) and the leg timing
  of `calculateDistance`.
- `script_debug.js`: the same stitching, with the coordinate filter
  factored out into `sliceRouteSegment`, and two differences. When fewer
  than two coordinates survive the filter it still draws the four-point
  leg of the clicks and their snapped points, where `script.js` draws
  nothing. A `turf.lineSlice` that throws is not caught, so no line is
  drawn, where `script.js` draws the leg with an empty middle.
- `script-debug.js`: the stand-alone copy of that coordinate filter.
- `final_script_debug_safe.js`: snaps only onto `LineString` features
  within 0.5 km. It ties each snap to its nearest graph node and draws
  the leg along the shortest path of a multigraph. Each edge of that path
  is expanded through a table of stored edge geometry.

Modules:

- `Geo`: coordinate pairs in turf order (`[lng, lat]`) and Leaflet order
  (`[lat, lng]`), the swap between them, and the JSON shapes read.
- `Nearest`: the running-minimum scan that every "nearest" search in the
  scripts performs.
- `Coords`: the `map`/`filter` coordinate validation, written out
  identically in four places: `script.js`, `script_debug.js`,
  `script-debug.js` and `final_script_debug_safe.js`.
- `Routing`: the weighted adjacency, paths and their weights, and the
  invariant of a Dijkstra main loop. `SearchResult` states what both
  searches return.
- `DijkstraSteps`: the steps both searches share, each proved to keep
  that invariant, and the walk back along `prev`.
- `ScriptGraph`: the graph code of `script.js`.
- `SafeGraph`: the graph code of `final_script_debug_safe.js`.
- `Stitch`: the snapping scan and the shape of a drawn leg.
- `ScriptSession`, `DebugSession`, `SafeSession`: each script's `addPoint`
  as a class over its global lists.

Modelling choices:

- `Infinity` in `dist` is absence from a `map`, and a `null` in `prev` is
  absence too.
- Edge weights are natural numbers.
- A node is a value of a type parameter. The string keys the scripts
  build with `join(',')` and `toString()` stand for the coordinate pair
  itself.
- `turf.nearestPointOnLine`, `turf.distance`, `turf.lineSlice` and
  `parseFloat` are parameters of the operations that call them.
- A call that throws is a parameter returning `None`.

## Model

| member | source | states |
|---|---|---|
| Geo.AllToLatLngConcat | script_debug.js:114-116 | pushing each sliced coordinate swapped, one after another, builds the swap of the whole slice: the swap of a concatenation is the concatenation of the swaps |
| Geo.SwapRoundTrip | final_script_debug_safe.js:199-207 | swapping a snapped point into turf order and back gives the same point, in both directions |
| Nearest.NearestIndex | script.js:85-95 | the running-minimum scan finds nothing exactly when no item is admitted, otherwise the first admitted item no farther than any other and strictly nearer than every earlier admitted one |
| Nearest.FirstNearestIsUnique | script.js:90 | with the strict `<`, the item the scan settles on is unique |
| Coords.ParseCoord | script.js:154-165 | a raw coordinate is kept exactly when it is an array of two entries that both parse, and it keeps those two numbers as longitude and latitude |
| Coords.ValidCoords | script.js:154-166 | the filtered list is never longer than the raw list |
| Coords.KeptValues | script.js:154-166 | each position the filter keeps holds the raw entry that parses to the output value at the same place |
| Coords.KeptIncreasing | script.js:154-166 | the kept positions lie inside the raw list and strictly increase, so the filter keeps order |
| Coords.KeptExactly | script.js:155-164 | a raw position is kept if and only if its entry parses |
| Coords.ValidCoordsIsOrderedSubsequence | script-debug.js:6-18 | the filtered list is the parsed raw entries at strictly increasing indices, and every raw entry that parses is among them |
| Coords.SliceRouteSegment | script_debug.js:43-69 | `null` exactly when fewer than two coordinates survive the filter, else the line through all of them |
| Routing.PathSplit | script.js:302-308 | the weight of a path splits at any node into the weights of its prefix and suffix |
| DijkstraSteps.InitialState | script.js:289-296 | start at 0, every key at `Infinity`, `prev` empty and the whole key list queued satisfies the loop invariant |
| DijkstraSteps.ExtractStep | script.js:299-300 | removing a queue entry no farther than any other keeps the invariant, and that node is then settled |
| DijkstraSteps.RelaxStep | script.js:303-307 | an improving relaxation along an edge no lighter than the adjacency's keeps the invariant, and its target is not yet extracted |
| DijkstraSteps.FinishRelax | script.js:302-308 | once every neighbour of the extracted node is within its distance plus the edge weight, the node's relaxation is complete |
| DijkstraSteps.Relax | final_script_debug_safe.js:88-92 | one relaxation keeps the invariant, leaves the target within `dist[u] + w`, never raises a distance and leaves `dist[u]` alone |
| DijkstraSteps.Reconstruct | script.js:311-318 | the walk back along `prev` ends; it yields `[end]` when `end` has no `prev`, else a path from the start to `end` no heavier than `dist[end]` |
| DijkstraSteps.PathEndsInGraph | script.js:282-285 | a path of at least one edge ends at a key of a closed adjacency |
| DijkstraSteps.ShortestAtExit | script.js:298-318 | when the loop ends by extracting `end` or emptying the queue, the rebuilt path is a shortest start-to-end path if one exists, else `[end]` |
| ScriptGraph.FindNearestNode | script.js:259-271 | `null` exactly when there are no nodes, else the first node at minimum distance from the click |
| ScriptGraph.LastJoinSymmetric | script.js:284-285 | the weight stored between two nodes is the same in both directions and comes from an edge joining them |
| ScriptGraph.AddEdgeAt | script.js:280-285 | adding one edge creates its two endpoints, sets the weight both ways and leaves every other entry alone |
| ScriptGraph.AdjacencyIsLastJoin | script.js:275-286 | the keys are the listed nodes and the edge endpoints; a neighbour entry exists exactly for nodes some edge joins, weighted by the last such edge |
| ScriptGraph.AdjacencySymmetric | script.js:279-286 | the adjacency is closed and undirected with equal weights both ways |
| ScriptGraph.EmptyEntries | script.js:275-278 | the node loop leaves one empty entry per listed node, with the keys listed once each |
| ScriptGraph.InsertEdge | script.js:279-285 | one pass of the edge loop performs exactly one `AddEdge`, appending the keys it creates once each |
| ScriptGraph.BuildAdjacency | script.js:275-289 | the loops build exactly the adjacency described above, with its keys listed once each |
| ScriptGraph.ExtractMin | script.js:299 | the `reduce` picks an entry no farther than any other, the first of the ties |
| ScriptGraph.RelaxedExceptStep | script.js:302-308 | one more relaxed neighbour shrinks the set still to relax by that neighbour |
| ScriptGraph.RelaxNeighbours | script.js:302-308 | relaxing every neighbour of the extracted node keeps the invariant and completes that node |
| ScriptGraph.FindShortestPath | script.js:274-319 | the path returned is a shortest path from start to end over the built adjacency when one exists, else `[end]` |
| SafeGraph.ArcsEndpoints | final_script_debug_safe.js:55-65 | every arc stored for a node leads to an edge endpoint, and only endpoints get arcs |
| SafeGraph.BuiltGraphKeys | final_script_debug_safe.js:53-66 | the keys are exactly the edge endpoints, and every arc leads to a key |
| SafeGraph.BuiltGraphStep | final_script_debug_safe.js:55-65 | handling one more edge pushes one arc onto each endpoint's list, creating a list on first sight |
| SafeGraph.BuildGraph | final_script_debug_safe.js:53-66 | the `forEach` builds exactly the multigraph of arcs both ways per edge, in edge order, with keys listed once |
| SafeGraph.ArcsSymmetric | final_script_debug_safe.js:63-64 | an arc `u -> v` of weight `w` is stored exactly as many times as the arc `v -> u` of that weight |
| SafeGraph.Lightest | final_script_debug_safe.js:87-92 | the weight that settles a neighbour is that of a stored arc and no heavier than any arc to that neighbour |
| SafeGraph.LightestBackward | final_script_debug_safe.js:63-64 | the lightest arc back is no heavier than the lightest arc out |
| SafeGraph.CollapseSymmetric | final_script_debug_safe.js:53-66 | the lightest-arc view of the built graph is closed and undirected with equal weights |
| SafeGraph.CollapseClosed | final_script_debug_safe.js:87-94 | when every arc names a key, the lightest-arc view is closed |
| SafeGraph.ExtractMin | final_script_debug_safe.js:82 | the `reduce` picks an entry no farther than any other, the last of the ties |
| SafeGraph.ArcsRelaxedStep | final_script_debug_safe.js:87-93 | one more relaxed arc extends the relaxed prefix of the arc list |
| SafeGraph.ArcsRelaxedAll | final_script_debug_safe.js:87-94 | once every arc is relaxed, every neighbour is within the node's distance plus the lightest arc |
| SafeGraph.RelaxArcs | final_script_debug_safe.js:87-94 | relaxing every arc, duplicates included, keeps the invariant and completes the node |
| SafeGraph.Dijkstra | final_script_debug_safe.js:70-104 | the path returned is a shortest path from start to end, using the lightest arc per neighbour, when one exists, else `[end]` |
| SafeGraph.FindNearestGraphNode | final_script_debug_safe.js:38-50 | `null` exactly when there are no graph nodes, else the first node at minimum distance |
| SafeGraph.ExpansionSplit | final_script_debug_safe.js:233-248 | the expansion of a path is the expansion up to any node followed by the expansion from it |
| SafeGraph.ChordChain | final_script_debug_safe.js:243-247 | without stored geometry every edge becomes its two swapped endpoints, two points per edge in path order |
| SafeGraph.ExpandPath | final_script_debug_safe.js:231-248 | the loop concatenates, edge by edge, the stored geometry (forward key, then reverse key) or the chord |
| Stitch.Snap | script_debug.js:81-97 | the snap is `null` exactly when no feature is admitted, else the first nearest admitted feature with its projected point in Leaflet order |
| Stitch.SnapAny | script.js:81-112 | no snap until the routes are loaded or when they hold no feature, otherwise the snap onto the first nearest feature, with no distance limit |
| ScriptSession.DrawnLeg | script.js:115-193 | no line when the snapped start's feature has fewer than two valid coordinates; otherwise a line between the clicks through the snapped points, whose middle is the slice's coordinates swapped into Leaflet order, or empty when the slice throws |
| ScriptSession.BuildSegments | script.js:121-186 | `routeSegments` is the drawn leg exactly when one is drawn, and only the first click and its snapped point when `addPoint` returns early |
| ScriptSession.DrawIfReady | script.js:115-193 | with fewer than two clicks or snaps nothing is drawn and `routeSegments` stays empty; otherwise the leg is pushed, or nothing when `addPoint` returns early |
| ScriptSession.Session.constructor | script.js:2-3 | every list starts empty |
| ScriptSession.Session.AddPoint | script.js:63-199 | the click is appended; it is snapped when routes are loaded; with two clicks and two snaps `routeSegments` is rebuilt and the leg pushed, or `addPoint` stops before drawing |
| ScriptSession.Session.ResetWaypoints | script.js:202-212 | the clicks, the snaps and the lines are cleared, and nothing else changes |
| ScriptSession.ResetAsWritten | script.js:202-212 | as written, `resetWaypoints` throws exactly when some point has snapped, and then leaves every list as it was; with no snapped point it clears the clicks, the snaps and the lines |
| ScriptSession.RollOver | script.js:230-235 | carrying whole hours out of the minutes keeps the time denoted, never lowers the hour, and leaves minutes below 60 and not negative if they started so |
| DebugSession.DebugLeg | script_debug.js:99-123 | the four-point leg when no line survives the filter; nothing drawn when the slice throws; otherwise a line between the clicks through the snapped points, whose middle is the slice's coordinates swapped into Leaflet order |
| DebugSession.DrawIfReady | script_debug.js:99-124 | the leg between the last two clicks is pushed once there are two clicks and two snaps, unless the slice throws |
| DebugSession.Session.constructor | script_debug.js:2-3 | every list starts empty |
| DebugSession.Session.AddPoint | script_debug.js:71-125 | the click is appended, snapped when routes are loaded, and the leg pushed once two clicks and two snaps exist, unless the slice throws |
| SafeSession.LinesPerEdge | final_script_debug_safe.js:233-259 | with the drawing inside the edge loop, one line is pushed per edge of the path |
| SafeSession.PerEdgeDrawingMisdraws | final_script_debug_safe.js:233-259 | with the drawing inside the edge loop, a three-node path pushes two lines (the first stopping at the middle node), and a one-node path pushes none |
| SafeSession.SnapToGraph | final_script_debug_safe.js:183-212 | there is a snap exactly when some `LineString` lies within 0.5 km and there is a graph node; the snap is the first nearest such line, tied to the first nearest graph node |
| SafeSession.DrawLeg | final_script_debug_safe.js:218-258 | the line runs from the first snapped point along a shortest path between the two graph nodes, through its expansion, to the second snapped point |
| SafeSession.Session.constructor | final_script_debug_safe.js:119-126 | the graph is the one `buildGraph` builds from the edges, with its keys, and the lists start empty |
| SafeSession.Session.AddPoint | final_script_debug_safe.js:171-263 | the click is appended; a graph-tied snap is appended exactly when one exists; with two snaps one leg is pushed along a shortest path; the graph and the tables are unchanged |

## Left out

- The `console.log` and `console.warn` output of every script is not
  modelled. It only reports progress and never changes state.
- Leaflet is not modelled: markers, polylines, tooltips, layers and the
  page. A drawn polyline is the list of points it was given.
- The `fetch` calls and their timing are not modelled. The route data,
  the graph and the geometry table are inputs to each session's
  constructor. Clicks that arrive before loading finishes are not
  modelled.
- `turf.nearestPointOnLine`, `turf.distance`, `turf.lineSlice` and
  `parseFloat` are parameters, not definitions.
- Floating-point numbers: edge weights are natural numbers and distances
  are reals. Rounding and `NaN` are not modelled.
- The `isNaN` check on `pt1` and `pt2` in `script.js` (lines 140-146) is
  not modelled. A snapped point here always has numeric coordinates, so
  that branch cannot fire.
- A `turf.lineString` that throws inside the snapping scan is not
  modelled. The scan treats every feature as a line.
- The scripts key nodes by strings built with `join(',')` or
  `toString()`. The model keys them by the node value itself, and the
  edge-geometry table by the pair of nodes.
- In `final_script_debug_safe.js` the polyline code sits inside the `for`
  loop over the path's edges, and the braces of `addPoint` do not
  balance. `SafeSession.Session.AddPoint` draws one line per leg after
  the loop. The in-loop placement is modelled separately (see Findings).
- The `!path || path.length === 0` guard of `final_script_debug_safe.js`
  (line 226) is not a separate branch. The rebuilt path always holds at
  least the end node, so the guard never fires.
- `script.js` (line 22) binds a button to `removeLastWaypoint`. No
  script defines that function, so there is nothing to model.
- A stored geometry found only under the reverse key is used as stored,
  not reversed. This follows the code on line 239, where the intent
  might be to reverse it.
- SafeGraph.Dijkstra: requires every arc to lead to a key of the graph.
  `buildGraph` guarantees this, and the session keeps it as its
  invariant.
- ScriptSession.Session.ResetWaypoints: states the evidently intended
  state, every list cleared. As written, the function throws on the
  snapped points' missing `marker` and clears nothing; that behaviour is
  `ScriptSession.ResetAsWritten` (see Findings).
- ScriptSession.RollOver: models only the minute roll-over loop of
  `calculateDistance`. Leg distances, the speed division, the `Infinity`
  or `NaN` minutes a zero speed would give, and the HTML output are left
  out.
- The order of `graphKeys` is not pinned down. The model only states
  that each key appears once, which is enough for the search to be
  correct.

## Findings

| source | as written | input that shows it | evidently intended | confidence | as-written member | corrected member |
|---|---|---|---|---|---|---|
| final_script_debug_safe.js:233-259 | `L.polyline(...)` and `routeLines.push` sit inside the loop over the path's edges | a leg whose shortest path has three nodes pushes two lines, the first ending at the middle node; a leg whose snaps share a graph node pushes none | one line per leg, drawn after the loop through the whole expansion | not executed; high | SafeSession.PerEdgeDrawingMisdraws | SafeSession.Session.AddPoint |
| script.js:202-204 | `snappedPoints.forEach(snap => map.removeLayer(snap.marker))`, while the entries pushed at script.js:107 have no `marker` | click once on a loaded, non-empty route collection, then press reset: `removeLayer(undefined)` throws, and no list is cleared | every list cleared, as `resetWaypoints` goes on to do | not executed; medium (depends on Leaflet throwing on `undefined`) | ScriptSession.ResetAsWritten | ScriptSession.Session.ResetWaypoints |
