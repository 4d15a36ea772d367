/** script.js: the session state `addPoint` and `resetWaypoints` keep in
    global lists, and the minute roll-over of `calculateDistance`. Markers,
    polylines and the page are not modelled: a drawn polyline is the list of
    points it was given. */
module ScriptSession {
  import opened Geo
  import opened Coords
  import opened Stitch

  /** The route script.js draws for the last two clicks once each has a
      snapped point: `None` when the snapped start's feature has fewer than
      two valid coordinates (`addPoint` then returns before drawing), else
      the leg through the slice of that feature between the two snapped
      points. A slice that throws is caught and leaves the middle empty. */
  function DrawnLeg(start: LatLng, end: LatLng, snappedStart: SnappedPoint, snappedEnd: SnappedPoint,
                    parse: JsVal -> Option<real>, slice: (LngLat, LngLat, seq<LngLat>) -> Option<seq<LngLat>>)
    : (leg: Option<seq<LatLng>>)
    ensures leg.Some? ==> |leg.value| >= 4
    ensures leg.None? <==> |ValidCoords(snappedStart.feature.coordinates, parse)| < 2
    ensures leg.Some? ==> leg.value[0] == start && leg.value[1] == snappedStart.latlng
    ensures leg.Some? ==> leg.value[|leg.value| - 2] == snappedEnd.latlng && leg.value[|leg.value| - 1] == end
    ensures leg.Some? && slice(ToLngLat(snappedStart.latlng), ToLngLat(snappedEnd.latlng),
                               ValidCoords(snappedStart.feature.coordinates, parse)).None? ==>
      leg.value == [start, snappedStart.latlng, snappedEnd.latlng, end]
    ensures leg.Some? && slice(ToLngLat(snappedStart.latlng), ToLngLat(snappedEnd.latlng),
                               ValidCoords(snappedStart.feature.coordinates, parse)).Some? ==>
      leg.value[2..|leg.value| - 2]
        == AllToLatLng(slice(ToLngLat(snappedStart.latlng), ToLngLat(snappedEnd.latlng),
                             ValidCoords(snappedStart.feature.coordinates, parse)).value)
  {
    var fullLine := SliceRouteSegment(snappedStart.feature.coordinates, parse);
    if fullLine.None? then None
    else
      var sliced := slice(ToLngLat(snappedStart.latlng), ToLngLat(snappedEnd.latlng), fullLine.value);
      Some(Leg(start, snappedStart.latlng, Middle(sliced), snappedEnd.latlng, end))
  }

  /** The drawing part of `addPoint` for the last two clicks: it starts
      `routeSegments` at the first click and its snapped point, stops there
      when the snapped start's feature has fewer than two valid
      coordinates, and otherwise adds the slice (nothing when it throws),
      the second snapped point and the second click. */
  method BuildSegments(start: LatLng, end: LatLng, snappedStart: SnappedPoint, snappedEnd: SnappedPoint,
                       parse: JsVal -> Option<real>, slice: (LngLat, LngLat, seq<LngLat>) -> Option<seq<LngLat>>)
    returns (segments: seq<LatLng>, drawn: bool)
    ensures drawn <==> DrawnLeg(start, end, snappedStart, snappedEnd, parse, slice).Some?
    ensures !drawn ==> segments == [start, snappedStart.latlng]
    ensures drawn ==> segments == DrawnLeg(start, end, snappedStart, snappedEnd, parse, slice).value
  {
    segments := [start, snappedStart.latlng];
    var pt1, pt2 := ToLngLat(snappedStart.latlng), ToLngLat(snappedEnd.latlng);
    var fullLineCoords := ValidCoords(snappedStart.feature.coordinates, parse);
    if |fullLineCoords| < 2 {
      return segments, false;
    }
    var sliced := slice(pt1, pt2, fullLineCoords);
    var pushed: seq<LatLng> := [];
    if sliced.Some? {
      var coords := sliced.value;
      var i := 0;
      while i < |coords|
        invariant 0 <= i <= |coords|
        invariant pushed == AllToLatLng(coords[..i])
      {
        pushed := pushed + [ToLatLng(coords[i])];
        assert coords[..i + 1] == coords[..i] + [coords[i]];
        AllToLatLngConcat(coords[..i], [coords[i]]);
        i := i + 1;
      }
      assert coords[..i] == coords;
    }
    segments := segments + pushed + [snappedEnd.latlng, end];
    drawn := true;
  }

  /** `segments` and `lines` are what `addPoint` leaves in `routeSegments`
      and `routeLines` (previously `oldLines`) once `clicks` and `snaps`
      hold the click: nothing drawn and `routeSegments` empty with fewer
      than two of either; otherwise the leg between the last two clicks, or,
      when `addPoint` returns before drawing, only its first two points. */
  ghost predicate LegDrawn(clicks: seq<LatLng>, snaps: seq<SnappedPoint>, parse: JsVal -> Option<real>,
                           slice: (LngLat, LngLat, seq<LngLat>) -> Option<seq<LngLat>>,
                           oldLines: seq<seq<LatLng>>, segments: seq<LatLng>, lines: seq<seq<LatLng>>)
  {
    if |clicks| >= 2 && |snaps| >= 2 then
      var leg := DrawnLeg(clicks[|clicks| - 2], clicks[|clicks| - 1], snaps[|snaps| - 2], snaps[|snaps| - 1], parse, slice);
      && (leg.None? ==> segments == [clicks[|clicks| - 2], snaps[|snaps| - 2].latlng] && lines == oldLines)
      && (leg.Some? ==> segments == leg.value && lines == oldLines + [leg.value])
    else
      segments == [] && lines == oldLines
  }

  /** The `if (selectedPoints.length >= 2 && snappedPoints.length >= 2)`
      block of `addPoint`, after `routeSegments = []`. */
  method DrawIfReady(clicks: seq<LatLng>, snaps: seq<SnappedPoint>, parse: JsVal -> Option<real>,
                     slice: (LngLat, LngLat, seq<LngLat>) -> Option<seq<LngLat>>, oldLines: seq<seq<LatLng>>)
    returns (segments: seq<LatLng>, lines: seq<seq<LatLng>>)
    ensures LegDrawn(clicks, snaps, parse, slice, oldLines, segments, lines)
  {
    segments, lines := [], oldLines;
    if |clicks| >= 2 && |snaps| >= 2 {
      var drawn;
      segments, drawn := BuildSegments(clicks[|clicks| - 2], clicks[|clicks| - 1], snaps[|snaps| - 2], snaps[|snaps| - 1],
                                       parse, slice);
      if drawn {
        lines := lines + [segments];
      }
    }
  }

  class Session {
    var selectedPoints: seq<LatLng>
    var snappedPoints: seq<SnappedPoint>
    var routeSegments: seq<LatLng>
    var routeLines: seq<seq<LatLng>>
    var flightRouteData: Option<seq<Feature>>

    /** The page state once the route collection has (or has not) loaded. */
    constructor (routes: Option<seq<Feature>>)
      ensures selectedPoints == [] && snappedPoints == [] && routeSegments == [] && routeLines == []
      ensures flightRouteData == routes
    {
      selectedPoints, snappedPoints, routeSegments, routeLines := [], [], [], [];
      flightRouteData := routes;
    }

    /** `addPoint(e)`: record the click; when the routes are loaded, snap it
      to the nearest feature (no distance limit); and when there are two
      clicks and two snapped points, rebuild `routeSegments` for the last
      leg and push it as a new line. */
    method AddPoint(latlng: LatLng, project: (Feature, LngLat) -> Projection, parse: JsVal -> Option<real>,
                    slice: (LngLat, LngLat, seq<LngLat>) -> Option<seq<LngLat>>)
      modifies this
      ensures selectedPoints == old(selectedPoints) + [latlng]
      ensures flightRouteData == old(flightRouteData)
      ensures SnapAppended(flightRouteData, project, ToLngLat(latlng), old(snappedPoints), snappedPoints)
      ensures LegDrawn(selectedPoints, snappedPoints, parse, slice, old(routeLines), routeSegments, routeLines)
    {
      var clicks, snaps := selectedPoints + [latlng], snappedPoints;
      var snapped := SnapAny(flightRouteData, project, ToLngLat(latlng));
      if snapped.Some? {
        snaps := snaps + [snapped.value];
        assert snaps[..|snappedPoints|] == snappedPoints;
      }
      var segments, lines := DrawIfReady(clicks, snaps, parse, slice, routeLines);
      selectedPoints, snappedPoints, routeSegments, routeLines := clicks, snaps, segments, lines;
    }

    /** `resetWaypoints()`: the clicks, the snapped points and the drawn
      lines are cleared; `routeSegments` keeps the last leg. Calling it
      again leaves the same state. */
    method ResetWaypoints()
      modifies this
      ensures selectedPoints == [] && snappedPoints == [] && routeLines == []
      ensures routeSegments == old(routeSegments) && flightRouteData == old(flightRouteData)
    {
      selectedPoints := [];
      snappedPoints := [];
      routeLines := [];
    }
  }

  /** `resetWaypoints()` as written: after the clicks' markers it removes
      `snap.marker` for every snapped point, but the entries `addPoint`
      pushes carry no marker, and Leaflet's `removeLayer` throws on
      `undefined`. With any snapped point the function therefore stops
      there, and none of the lists is cleared. */
  method ResetAsWritten(selected: seq<LatLng>, snaps: seq<SnappedPoint>, lines: seq<seq<LatLng>>)
    returns (selectedAfter: seq<LatLng>, snapsAfter: seq<SnappedPoint>, linesAfter: seq<seq<LatLng>>, threw: bool)
    ensures threw <==> snaps != []
    ensures threw ==> selectedAfter == selected && snapsAfter == snaps && linesAfter == lines
    ensures !threw ==> selectedAfter == [] && snapsAfter == [] && linesAfter == []
  {
    selectedAfter, snapsAfter, linesAfter, threw := selected, snaps, lines, false;
    if |snaps| > 0 {
      threw := true;
      return;
    }
    selectedAfter, snapsAfter, linesAfter := [], [], [];
  }

  /** The `while (currentMinute >= 60)` loop of `calculateDistance`: carry
      whole hours out of the minutes. The time of day it denotes is kept,
      hours are never wrapped at 24, and minutes end below 60 (and not
      below 0 when they started there); minutes already below 60 are left
      as they are. */
  method RollOver(currentHour: int, currentMinute: real) returns (hour: int, minute: real)
    ensures (hour as real) * 60.0 + minute == (currentHour as real) * 60.0 + currentMinute
    ensures minute < 60.0 && hour >= currentHour
    ensures currentMinute >= 0.0 ==> minute >= 0.0
    ensures currentMinute < 60.0 ==> hour == currentHour && minute == currentMinute
  {
    hour, minute := currentHour, currentMinute;
    while minute >= 60.0
      invariant (hour as real) * 60.0 + minute == (currentHour as real) * 60.0 + currentMinute
      invariant hour >= currentHour
      invariant currentMinute >= 0.0 ==> minute >= 0.0
      invariant currentMinute < 60.0 ==> hour == currentHour && minute == currentMinute
      decreases minute.Floor
    {
      minute := minute - 60.0;
      hour := hour + 1;
    }
  }
}
