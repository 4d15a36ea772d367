/** The coordinate validation that every script runs over a snapped
    feature's raw `coordinates` before handing them to `turf.lineString`:
    `rawCoords.map(...)` turns each entry into `[lng, lat]` or `null`,
    `.filter(c => c !== null)` drops the nulls, and fewer than two survivors
    means there is no line. The four copies of it (script.js,
    final_script_debug_safe.js, script_debug.js, script-debug.js) are the same
    text, so they are modelled once here. `parseFloat` is a parameter:
    `None` stands for `NaN`. */
module Coords {
  import opened Geo

  /** The `map` callback: a 2-element array whose components both parse. */
  function ParseCoord(c: JsVal, parse: JsVal -> Option<real>): (r: Option<LngLat>)
    ensures r.Some? <==>
      c.JsArray? && |c.items| == 2 && parse(c.items[0]).Some? && parse(c.items[1]).Some?
    ensures r.Some? ==> r.value.lng == parse(c.items[0]).value && r.value.lat == parse(c.items[1]).value
  {
    if !c.JsArray? || |c.items| != 2 then None
    else
      var lng := parse(c.items[0]);
      var lat := parse(c.items[1]);
      if lng.None? || lat.None? then None else Some(LngLat(lng.value, lat.value))
  }

  /** `fullLineCoords`: the parsed entries that survive, in input order. */
  function ValidCoords(raw: seq<JsVal>, parse: JsVal -> Option<real>): (r: seq<LngLat>)
    ensures |r| <= |raw|
  {
    if raw == [] then []
    else
      var last := ParseCoord(raw[|raw| - 1], parse);
      ValidCoords(raw[..|raw| - 1], parse) + (if last.Some? then [last.value] else [])
  }

  /** The positions in `raw` of the entries the filter keeps. */
  function KeptIndices(raw: seq<JsVal>, parse: JsVal -> Option<real>): seq<nat>
  {
    if raw == [] then []
    else
      KeptIndices(raw[..|raw| - 1], parse)
        + (if ParseCoord(raw[|raw| - 1], parse).Some? then [|raw| - 1] else [])
  }

  /** Each kept position holds the entry that parses to the output value
      at the same place. */
  lemma {:induction false} KeptValues(raw: seq<JsVal>, parse: JsVal -> Option<real>)
    ensures |KeptIndices(raw, parse)| == |ValidCoords(raw, parse)|
    ensures forall k :: 0 <= k < |KeptIndices(raw, parse)| ==>
      KeptIndices(raw, parse)[k] < |raw| &&
      ParseCoord(raw[KeptIndices(raw, parse)[k]], parse) == Some(ValidCoords(raw, parse)[k])
  {
    if raw != [] {
      var init := raw[..|raw| - 1];
      KeptValues(init, parse);
      var ks0, r0 := KeptIndices(init, parse), ValidCoords(init, parse);
      var ks, r := KeptIndices(raw, parse), ValidCoords(raw, parse);
      forall k | 0 <= k < |ks| ensures ks[k] < |raw| && ParseCoord(raw[ks[k]], parse) == Some(r[k]) {
        if k < |ks0| {
          assert ks[k] == ks0[k] && r[k] == r0[k] && raw[ks0[k]] == init[ks0[k]];
        }
      }
    }
  }

  /** The kept positions lie in `raw` and increase. */
  lemma {:induction false} KeptIncreasing(raw: seq<JsVal>, parse: JsVal -> Option<real>)
    ensures forall k :: 0 <= k < |KeptIndices(raw, parse)| ==> KeptIndices(raw, parse)[k] < |raw|
    ensures forall k, l :: 0 <= k < l < |KeptIndices(raw, parse)| ==>
      KeptIndices(raw, parse)[k] < KeptIndices(raw, parse)[l]
  {
    if raw != [] {
      var init := raw[..|raw| - 1];
      KeptIncreasing(init, parse);
      var ks0, ks := KeptIndices(init, parse), KeptIndices(raw, parse);
      assert forall k :: 0 <= k < |ks0| ==> ks[k] == ks0[k];
    }
  }

  /** A position is kept exactly when its entry parses. */
  lemma {:induction false} KeptExactly(raw: seq<JsVal>, parse: JsVal -> Option<real>)
    ensures forall i :: 0 <= i < |raw| ==>
      (ParseCoord(raw[i], parse).Some? <==> i in KeptIndices(raw, parse))
  {
    if raw != [] {
      var init := raw[..|raw| - 1];
      KeptExactly(init, parse);
      KeptIncreasing(init, parse);
      var ks0, ks := KeptIndices(init, parse), KeptIndices(raw, parse);
      forall i | 0 <= i < |raw| ensures ParseCoord(raw[i], parse).Some? <==> i in ks {
        if i < |init| {
          assert raw[i] == init[i];
          assert |raw| - 1 !in ks0;
        }
      }
    }
  }

  /** The filter's output is exactly the valid entries of the input, each
      parsed, in their original order: the kept positions increase, every
      kept value is its entry parsed, and an entry is kept if and only if it
      is a 2-element array with two numeric components. */
  lemma {:induction false} ValidCoordsIsOrderedSubsequence(raw: seq<JsVal>, parse: JsVal -> Option<real>)
    ensures |KeptIndices(raw, parse)| == |ValidCoords(raw, parse)|
    ensures forall k :: 0 <= k < |KeptIndices(raw, parse)| ==>
      KeptIndices(raw, parse)[k] < |raw| &&
      ParseCoord(raw[KeptIndices(raw, parse)[k]], parse) == Some(ValidCoords(raw, parse)[k])
    ensures forall k, l :: 0 <= k < l < |KeptIndices(raw, parse)| ==>
      KeptIndices(raw, parse)[k] < KeptIndices(raw, parse)[l]
    ensures forall i :: 0 <= i < |raw| ==>
      (ParseCoord(raw[i], parse).Some? <==> i in KeptIndices(raw, parse))
  {
    KeptValues(raw, parse);
    KeptIncreasing(raw, parse);
    KeptExactly(raw, parse);
  }

  /** `sliceRouteSegment` up to the `turf.lineString` call: `null` when fewer
      than two valid coordinates remain, otherwise the line through them. */
  function SliceRouteSegment(raw: seq<JsVal>, parse: JsVal -> Option<real>): (line: Option<seq<LngLat>>)
    ensures line.None? <==> |ValidCoords(raw, parse)| < 2
    ensures line.Some? ==> line.value == ValidCoords(raw, parse) && |line.value| >= 2
  {
    var coords := ValidCoords(raw, parse);
    if |coords| < 2 then None else Some(coords)
  }
}
