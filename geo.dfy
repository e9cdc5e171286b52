/**
 * Coordinates, the rounding of distances to a tenth of a kilometre, and the 8-way direction label
 * (src/utils/static-suburbs.ts:56-67, repeated at src/utils/footer-locations.ts:63-68).
 * The haversine distance and the atan2 bearing are floating-point trigonometry; this model takes
 * them as given functions.
 */
module Geo {

  datatype Coord = Coord(lat: real, lng: real)

  /** A haversine distance in kilometres is never negative. */
  type Km = x: real | 0.0 <= x

  /** A bearing in degrees, as the arc tangent of the longitude and latitude differences gives it, lies in [-180, 180]. */
  type Angle = x: real | -180.0 <= x <= 180.0

  /**
   * The two trigonometric helpers of the source: `km(from, to)` is the haversine distance
   * (Earth radius 6371 km) and `bearing(from, to)` is `atan2(to.lng - from.lng, to.lat - from.lat)`
   * in degrees, longitude difference first as in the source.
   */
  datatype Geo = Geo(km: (Coord, Coord) -> Km, bearing: (Coord, Coord) -> Angle)

  /** Rounding to the nearest integer, halves towards positive infinity, as JavaScript rounds. */
  function JsRound(x: real): (r: int)
    ensures x - 0.5 < r as real <= x + 0.5
  {
    (x + 0.5).Floor
  }

  /** The distance rounded to the nearest tenth of a kilometre. */
  function RoundTenth(d: real): (r: real)
    ensures d - 0.05 < r <= d + 0.05
    ensures 0.0 <= d ==> 0.0 <= r
    ensures (r * 10.0).Floor as real == r * 10.0
  {
    JsRound(d * 10.0) as real / 10.0
  }

  /** Truncation towards zero, as JavaScript's `%` uses it. */
  function Trunc(x: real): int {
    if x >= 0.0 then x.Floor else -((-x).Floor)
  }

  /** JavaScript's `x % m` on numbers: the remainder takes the sign of the dividend. */
  function JsRem(x: real, m: real): real
    requires m > 0.0
  {
    x - m * Trunc(x / m) as real
  }

  /** The bearing shifted by a full turn and reduced modulo 360 with JavaScript's remainder: a value in [0, 360). */
  function Normalize(angle: Angle): (r: real)
    ensures 0.0 <= r < 360.0
    ensures r == if angle < 0.0 then angle + 360.0 else angle
  {
    JsRem(angle + 360.0, 360.0)
  }

  const Directions: seq<string> := ["N", "NE", "E", "SE", "S", "SW", "W", "NW"]

  /** The nearest multiple of 45 degrees, counted modulo 8; the dividend is never negative, so JavaScript's remainder agrees with Dafny's. */
  function DirectionIndex(angle: Angle): (i: int)
    ensures 0 <= i < 8
  {
    var steps := JsRound(Normalize(angle) / 45.0);
    assert 0 <= steps;
    steps % 8
  }

  /** `calculateDirection`: one of the eight compass labels, clockwise from north. */
  function DirectionLabel(angle: Angle): (name: string)
    ensures name in Directions
    ensures angle == 0.0 ==> name == "N"
  {
    Directions[DirectionIndex(angle)]
  }

  /** The normalized bearing `x` lies within 22.5 degrees of direction `k` (half-open on the clockwise side). */
  predicate InSector(x: real, k: int) {
    if k == 0 then x < 22.5 || 337.5 <= x
    else 45.0 * k as real - 22.5 <= x < 45.0 * k as real + 22.5
  }

  /** The label is the nearest of the eight 45-degree directions: index `k` exactly when the bearing is in sector `k`. */
  lemma DirectionSectors(angle: Angle, k: int)
    requires 0 <= k < 8
    ensures DirectionIndex(angle) == k <==> InSector(Normalize(angle), k)
  {
    var x := Normalize(angle);
    var steps := JsRound(x / 45.0);
    assert 45.0 * steps as real - 22.5 <= x < 45.0 * steps as real + 22.5;
    assert 0 <= steps <= 8;
  }
}
