/** Pieces of `addPoint` that script.js, script_debug.js and
    final_script_debug_safe.js write alike: snapping a click to the nearest
    route feature, and the shape of a drawn leg. `turf.nearestPointOnLine`
    is the parameter `project`, and `turf.lineSlice` the parameter `slice`,
    whose `None` stands for a call that threw. */
module Stitch {
  import opened Geo
  import Nearest

  /** `{ latlng: snappedLatLng, feature: snappedFeature }`, the entry pushed
      onto `snappedPoints`: the projected point in Leaflet order and the
      feature it lies on. */
  datatype SnappedPoint = SnappedPoint(latlng: LatLng, feature: Feature)

  /** `snapped.properties.dist` for each feature, from the clicked point. */
  function DistanceFrom(project: (Feature, LngLat) -> Projection, point: LngLat): Feature -> real
  {
    f => project(f, point).dist
  }

  /** The filter of script.js and script_debug.js: every feature competes. */
  function EveryFeature(): Feature -> bool
  {
    f => true
  }

  /** `s` is what the scan settles on: the first admitted feature whose
      projection is nearest, with the projected point swapped to Leaflet order. */
  ghost predicate SnapsTo(features: seq<Feature>, project: (Feature, LngLat) -> Projection, point: LngLat,
                          admit: Feature -> bool, s: SnappedPoint)
  {
    exists k: nat :: Nearest.IsFirstNearest(features, DistanceFrom(project, point), admit, k)
      && s == SnappedPoint(ToLatLng(project(features[k], point).point), features[k])
  }

  /** The `forEach` over the route features with `closestPoint` and
      `shortestDist`: `None` when no feature is admitted, otherwise the
      snap onto the nearest admitted feature, the first one on ties. */
  method Snap(features: seq<Feature>, project: (Feature, LngLat) -> Projection, point: LngLat, admit: Feature -> bool)
    returns (snapped: Option<SnappedPoint>)
    ensures snapped.None? <==> forall i :: 0 <= i < |features| ==> !admit(features[i])
    ensures snapped.Some? ==> SnapsTo(features, project, point, admit, snapped.value)
  {
    var best := Nearest.NearestIndex(features, DistanceFrom(project, point), admit);
    if best.Some? {
      var route := features[best.value];
      var closestPoint := project(route, point);
      snapped := Some(SnappedPoint(ToLatLng(closestPoint.point), route));
    } else {
      snapped := None;
    }
  }

  /** The snap of script.js and script_debug.js: no snap until the route
      collection has loaded or when it has no features; otherwise the snap
      onto the nearest feature, the first one on ties, with no distance limit. */
  method SnapAny(routes: Option<seq<Feature>>, project: (Feature, LngLat) -> Projection, point: LngLat)
    returns (snapped: Option<SnappedPoint>)
    ensures snapped.Some? <==> routes.Some? && |routes.value| > 0
    ensures snapped.Some? ==> SnapsTo(routes.value, project, point, EveryFeature(), snapped.value)
  {
    snapped := None;
    if routes.Some? {
      snapped := Snap(routes.value, project, point, EveryFeature());
      assert |routes.value| > 0 ==> EveryFeature()(routes.value[0]);
    }
  }

  /** `snaps` is `oldSnaps` after the click at `point` went through the
      snap of script.js and script_debug.js: one more entry, the snap onto
      the nearest feature, once the route collection has loaded and has
      features; otherwise unchanged. */
  ghost predicate SnapAppended(routes: Option<seq<Feature>>, project: (Feature, LngLat) -> Projection, point: LngLat,
                               oldSnaps: seq<SnappedPoint>, snaps: seq<SnappedPoint>)
  {
    if routes.Some? && |routes.value| > 0 then
      && |snaps| == |oldSnaps| + 1 && snaps[..|oldSnaps|] == oldSnaps
      && SnapsTo(routes.value, project, point, EveryFeature(), snaps[|oldSnaps|])
    else
      snaps == oldSnaps
  }

  /** One drawn leg, `[prevClick, prevSnapped, ...middle, currSnapped,
      currClick]`: the two clicks at the ends, the two snapped points just
      inside them, and the middle in between, unchanged. */
  function Leg(prevClick: LatLng, prevSnapped: LatLng, middle: seq<LatLng>, currSnapped: LatLng, currClick: LatLng)
    : (leg: seq<LatLng>)
    ensures |leg| == |middle| + 4
    ensures leg[0] == prevClick && leg[1] == prevSnapped
    ensures leg[|leg| - 2] == currSnapped && leg[|leg| - 1] == currClick
    ensures leg[2..|leg| - 2] == middle
  {
    [prevClick, prevSnapped] + middle + [currSnapped, currClick]
  }

  /** What `sliced.geometry.coordinates.forEach(coord => push([coord[1], coord[0]]))`
      adds: the slice in Leaflet order, or nothing when the slice threw. */
  function Middle(sliced: Option<seq<LngLat>>): seq<LatLng>
  {
    if sliced.Some? then AllToLatLng(sliced.value) else []
  }
}
