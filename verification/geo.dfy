/** Values shared by every script: coordinates in the two orders the
    scripts use, the optional value that stands for `null`, and the
    untyped JSON values that route coordinates arrive as. */
module Geo {

  /** The conventional stand-in for a value or `null`. */
  datatype Option<T> = None | Some(value: T)

  /** A GeoJSON / turf position: longitude first. */
  datatype LngLat = LngLat(lng: real, lat: real)

  /** A Leaflet position: latitude first. */
  datatype LatLng = LatLng(lat: real, lng: real)

  /** `[c[1], c[0]]` applied to a GeoJSON position. */
  function ToLatLng(p: LngLat): (q: LatLng)
    ensures q.lat == p.lat && q.lng == p.lng
  {
    LatLng(p.lat, p.lng)
  }

  /** `[p[1], p[0]]` applied to a Leaflet position. */
  function ToLngLat(q: LatLng): (p: LngLat)
    ensures p.lat == q.lat && p.lng == q.lng
  {
    LngLat(q.lng, q.lat)
  }

  /** Every point of a GeoJSON coordinate list swapped into Leaflet order. */
  function AllToLatLng(ps: seq<LngLat>): (qs: seq<LatLng>)
    ensures |qs| == |ps|
    ensures forall i :: 0 <= i < |ps| ==> qs[i] == ToLatLng(ps[i])
  {
    seq(|ps|, i requires 0 <= i < |ps| => ToLatLng(ps[i]))
  }

  /** Swapping a list piece by piece: the swap of a concatenation is the
      concatenation of the swaps, so pushing each coordinate in turn builds
      the swap of the whole list. */
  lemma AllToLatLngConcat(a: seq<LngLat>, b: seq<LngLat>)
    ensures AllToLatLng(a + b) == AllToLatLng(a) + AllToLatLng(b)
  {
    var l, r := AllToLatLng(a + b), AllToLatLng(a) + AllToLatLng(b);
    forall i | 0 <= i < |a| + |b| ensures l[i] == r[i] {
      if i < |a| { assert (a + b)[i] == a[i]; } else { assert (a + b)[i] == b[i - |a|]; }
    }
  }

  /** Swapping twice gives back the position: the snapped point kept in
      Leaflet order and swapped back for turf is the point turf produced. */
  lemma SwapRoundTrip(p: LngLat, q: LatLng)
    ensures ToLngLat(ToLatLng(p)) == p
    ensures ToLatLng(ToLngLat(q)) == q
  {
  }

  /** An untyped JSON value as found in a feature's `coordinates` array. */
  datatype JsVal =
    | JsArray(items: seq<JsVal>)
    | JsNumber(n: real)
    | JsString(s: string)
    | JsOther

  /** A GeoJSON feature of the route collection. */
  datatype Feature = Feature(geometryType: string, coordinates: seq<JsVal>)

  /** What `turf.nearestPointOnLine` reports for one feature: the projected
      point and its distance (km) from the click. */
  datatype Projection = Projection(point: LngLat, dist: real)
}
