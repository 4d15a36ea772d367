/** script_debug.js: `addPoint` with the coordinate filter factored out into
    `sliceRouteSegment`. The leg is a local list here, and a `lineSlice`
    that throws is not caught, so it abandons the click's drawing. */
module DebugSession {
  import opened Geo
  import opened Coords
  import opened Stitch

  /** The leg script_debug.js draws for the last two clicks, or `None` when
      `turf.lineSlice` throws. With no usable line through the snapped
      start's feature there is no slice, and the leg is just the two clicks
      and the two snapped points. */
  function DebugLeg(start: LatLng, end: LatLng, snappedStart: SnappedPoint, snappedEnd: SnappedPoint,
                    parse: JsVal -> Option<real>, slice: (LngLat, LngLat, seq<LngLat>) -> Option<seq<LngLat>>)
    : (leg: Option<seq<LatLng>>)
    ensures SliceRouteSegment(snappedStart.feature.coordinates, parse).None? ==>
      leg == Some([start, snappedStart.latlng, snappedEnd.latlng, end])
    ensures leg.None? <==>
      && SliceRouteSegment(snappedStart.feature.coordinates, parse).Some?
      && slice(ToLngLat(snappedStart.latlng), ToLngLat(snappedEnd.latlng),
               SliceRouteSegment(snappedStart.feature.coordinates, parse).value).None?
    ensures leg.Some? ==>
      && |leg.value| >= 4 && leg.value[0] == start && leg.value[1] == snappedStart.latlng
      && leg.value[|leg.value| - 2] == snappedEnd.latlng && leg.value[|leg.value| - 1] == end
    ensures leg.Some? && SliceRouteSegment(snappedStart.feature.coordinates, parse).Some? ==>
      leg.value[2..|leg.value| - 2]
        == AllToLatLng(slice(ToLngLat(snappedStart.latlng), ToLngLat(snappedEnd.latlng),
                             SliceRouteSegment(snappedStart.feature.coordinates, parse).value).value)
  {
    var fullLine := SliceRouteSegment(snappedStart.feature.coordinates, parse);
    if fullLine.None? then
      assert Leg(start, snappedStart.latlng, [], snappedEnd.latlng, end)
          == [start, snappedStart.latlng, snappedEnd.latlng, end];
      Some(Leg(start, snappedStart.latlng, [], snappedEnd.latlng, end))
    else
      var sliced := slice(ToLngLat(snappedStart.latlng), ToLngLat(snappedEnd.latlng), fullLine.value);
      if sliced.None? then None
      else Some(Leg(start, snappedStart.latlng, AllToLatLng(sliced.value), snappedEnd.latlng, end))
  }

  /** `lines` is `oldLines` after `addPoint` with `clicks` and `snaps`
      holding the click: the leg between the last two clicks pushed once
      there are two of each, unless the slice threw. */
  ghost predicate LinePushed(clicks: seq<LatLng>, snaps: seq<SnappedPoint>, parse: JsVal -> Option<real>,
                             slice: (LngLat, LngLat, seq<LngLat>) -> Option<seq<LngLat>>,
                             oldLines: seq<seq<LatLng>>, lines: seq<seq<LatLng>>)
  {
    if |clicks| >= 2 && |snaps| >= 2 then
      var leg := DebugLeg(clicks[|clicks| - 2], clicks[|clicks| - 1], snaps[|snaps| - 2], snaps[|snaps| - 1], parse, slice);
      lines == oldLines + (if leg.Some? then [leg.value] else [])
    else
      lines == oldLines
  }

  /** The `if (selectedPoints.length >= 2 && snappedPoints.length >= 2)`
      block of `addPoint`: build the local `routeSegments` and push it, or
      leave `addPoint` when `turf.lineSlice` throws. */
  method DrawIfReady(clicks: seq<LatLng>, snaps: seq<SnappedPoint>, parse: JsVal -> Option<real>,
                     slice: (LngLat, LngLat, seq<LngLat>) -> Option<seq<LngLat>>, oldLines: seq<seq<LatLng>>)
    returns (lines: seq<seq<LatLng>>)
    ensures LinePushed(clicks, snaps, parse, slice, oldLines, lines)
  {
    lines := oldLines;
    if |clicks| >= 2 && |snaps| >= 2 {
      var start := clicks[|clicks| - 2];
      var end := clicks[|clicks| - 1];
      var snappedStart := snaps[|snaps| - 2];
      var snappedEnd := snaps[|snaps| - 1];
      var routeSegments := [start, snappedStart.latlng];
      var fullLine := SliceRouteSegment(snappedStart.feature.coordinates, parse);
      if fullLine.Some? {
        var pt1, pt2 := ToLngLat(snappedStart.latlng), ToLngLat(snappedEnd.latlng);
        var sliced := slice(pt1, pt2, fullLine.value);
        if sliced.None? {
          return;
        }
        var coords := sliced.value;
        var i := 0;
        while i < |coords|
          invariant 0 <= i <= |coords|
          invariant routeSegments == [start, snappedStart.latlng] + AllToLatLng(coords[..i])
        {
          routeSegments := routeSegments + [ToLatLng(coords[i])];
          assert coords[..i + 1] == coords[..i] + [coords[i]];
        AllToLatLngConcat(coords[..i], [coords[i]]);
          i := i + 1;
        }
        assert coords[..i] == coords;
      }
      routeSegments := routeSegments + [snappedEnd.latlng, end];
      assert fullLine.None? ==> routeSegments == Leg(start, snappedStart.latlng, [], snappedEnd.latlng, end);
      lines := lines + [routeSegments];
    }
  }

  class Session {
    var selectedPoints: seq<LatLng>
    var snappedPoints: seq<SnappedPoint>
    var routeLines: seq<seq<LatLng>>
    var flightRouteData: Option<seq<Feature>>

    constructor (routes: Option<seq<Feature>>)
      ensures selectedPoints == [] && snappedPoints == [] && routeLines == []
      ensures flightRouteData == routes
    {
      selectedPoints, snappedPoints, routeLines := [], [], [];
      flightRouteData := routes;
    }

    /** `addPoint(e)`: record the click, snap it to the nearest feature (no
      distance limit) when the routes are loaded, and once both lists hold
      two entries push the leg between the last two clicks. */
    method AddPoint(latlng: LatLng, project: (Feature, LngLat) -> Projection, parse: JsVal -> Option<real>,
                    slice: (LngLat, LngLat, seq<LngLat>) -> Option<seq<LngLat>>)
      modifies this
      ensures selectedPoints == old(selectedPoints) + [latlng]
      ensures flightRouteData == old(flightRouteData)
      ensures SnapAppended(flightRouteData, project, ToLngLat(latlng), old(snappedPoints), snappedPoints)
      ensures LinePushed(selectedPoints, snappedPoints, parse, slice, old(routeLines), routeLines)
    {
      var clicks, snaps := selectedPoints + [latlng], snappedPoints;
      var snapped := SnapAny(flightRouteData, project, ToLngLat(latlng));
      if snapped.Some? {
        snaps := snaps + [snapped.value];
        assert snaps[..|snappedPoints|] == snappedPoints;
      }
      var lines := DrawIfReady(clicks, snaps, parse, slice, routeLines);
      selectedPoints, snappedPoints, routeLines := clicks, snaps, lines;
    }
  }
}
