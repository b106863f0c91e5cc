/** The decoders on the test vectors that CPR.java carries with it: each
    vector's expected result, met to within the 1e-6 degrees the tests allow.
    Where the tests move the reference position around, the lemmas take the
    reference as a parameter and cover the whole range the tests sample. */
module CprVectors {
  import opened CprArith
  import opened CprTable
  import opened CprDecode
  import opened CprProperties

  /** The tests' tolerance. */
  predicate Near(x: real, expected: real)
  {
    Abs(x - expected) <= 0.000001
  }

  /** A decoded position within the tests' tolerance of (lat, lon). */
  predicate DecodesNear(r: Decoded, lat: real, lon: real)
  {
    r.Decoded? && Near(r.pos.lat, lat) && Near(r.pos.lon, lon)
  }

  // Global airborne decoding (testCPRGlobalAirborne).

  /** An airborne pair with latitude index 8 whose candidates both lie in the
      band of 37 zones. */
  lemma AirborneCandidates(lat0: int, lat1: int, rlat0: real, rlat1: real)
    requires (lat0, lat1) in {(80536, 61720), (80534, 61714)}
    requires rlat0 == Unwrap(CellPoint(360.0 / 60.0, 60, LatIndex(lat0, lat1), lat0))
    requires rlat1 == Unwrap(CellPoint(360.0 / 59.0, 59, LatIndex(lat0, lat1), lat1))
    ensures rlat0 == 6.0 * (8.0 + lat0 as real / Scale)
    ensures rlat1 == 360.0 / 59.0 * (8.0 + lat1 as real / Scale)
    ensures ZoneCount(rlat0) == 37 && ZoneCount(rlat1) == 37
  {
    assert LatIndex(lat0, lat1) == 8;
    assert CprModInt(8, 60) == 8 && CprModInt(8, 59) == 8;
    ZoneCountOfBand(rlat0, 37);
    ZoneCountOfBand(rlat1, 37);
  }

  /** The global airborne decoding of a pair of the first kind: latitude from
      the packet fflag selects, longitude in zone 0 of that packet's grid. */
  lemma AirborneVector(lat0: int, lon0: int, lat1: int, lon1: int, odd: bool)
    requires (lat0, lon0, lat1, lon1) in {(80536, 9432, 61720, 9192), (80534, 9413, 61714, 9144)}
    ensures GlobalAirborne(lat0, lon0, lat1, lon1, odd) ==
      if odd then Decoded(Position(360.0 / 59.0 * (8.0 + lat1 as real / Scale), 10.0 * (lon1 as real / Scale)))
      else Decoded(Position(6.0 * (8.0 + lat0 as real / Scale), 360.0 / 37.0 * (lon0 as real / Scale)))
  {
    var rlat0 := Unwrap(CellPoint(360.0 / 60.0, 60, LatIndex(lat0, lat1), lat0));
    var rlat1 := Unwrap(CellPoint(360.0 / 59.0, 59, LatIndex(lat0, lat1), lat1));
    AirborneCandidates(lat0, lat1, rlat0, rlat1);
    AirborneSteps(lat0, lon0, lat1, lon1, odd, rlat0, rlat1);
    assert LonIndex(lon0, lon1, 37) == 0;
    var rlat := if odd then rlat1 else rlat0;
    var lon := if odd then 10.0 * (lon1 as real / Scale) else 360.0 / 37.0 * (lon0 as real / Scale);
    assert GlobalLon(rlat, odd, false, lon0, lon1) == lon;
    RenormalizeUnique(lon, 0);
  }

  /** testCPRGlobalAirborne, first vector, with either packet the latest. */
  lemma AirborneFirstVector()
    ensures DecodesNear(GlobalAirborne(80536, 9432, 61720, 9192, false), 51.686646, 0.700156)
    ensures DecodesNear(GlobalAirborne(80536, 9432, 61720, 9192, true), 51.686763, 0.701294)
  {
    AirborneVector(80536, 9432, 61720, 9192, false);
    AirborneVector(80536, 9432, 61720, 9192, true);
  }

  /** testCPRGlobalAirborne, second vector, with either packet the latest. */
  lemma AirborneSecondVector()
    ensures DecodesNear(GlobalAirborne(80534, 9413, 61714, 9144, false), 51.686554, 0.698745)
    ensures DecodesNear(GlobalAirborne(80534, 9413, 61714, 9144, true), 51.686484, 0.697632)
  {
    AirborneVector(80534, 9413, 61714, 9144, false);
    AirborneVector(80534, 9413, 61714, 9144, true);
  }

  // Global surface decoding (testCPRGlobalSurface).

  /** The surface pair of the Cambridge apron: latitude index 34, candidates
      near 52.21 degrees before the hemisphere is chosen. */
  lemma SurfaceCandidates(c0: real, c1: real)
    requires c0 == CellPoint(90.0 / 60.0, 60, LatIndex(105730, 29693), 105730)
    requires c1 == CellPoint(90.0 / 59.0, 59, LatIndex(105730, 29693), 29693)
    ensures c0 == 1.5 * (34.0 + 105730.0 / Scale)
    ensures c1 == 90.0 / 59.0 * (34.0 + 29693.0 / Scale)
  {
    assert LatIndex(105730, 29693) == 34;
    assert CprModInt(34, 60) == 34 && CprModInt(34, 59) == 34;
  }

  /** The quarter turn q that the quadrant step adds to a longitude g just east
      of the meridian, for a reference within 45 degrees of q quarter turns. */
  lemma QuadrantOf(g: real, reflon: real, q: int)
    requires 0.1 <= g <= 0.2
    requires 90.0 * q as real - 44.0 <= reflon <= 90.0 * q as real + 45.0
    ensures QuadrantShift(g, reflon) == g + q as real * 90.0
  {
    var u := reflon - g + 45.0;
    var t := u / 90.0;
    assert 90.0 * q as real <= u < 90.0 * q as real + 90.0;
    assert t * 90.0 == u;
    assert q as real <= t < q as real + 1.0;
    assert t.Floor == q;
  }

  /** The surface longitude step for such a g: moved into the quadrant of the
      reference, then into [-180, 180), where two quarter turns east are two
      quarter turns west. */
  lemma QuadrantLon(g: real, reflon: real, q: int)
    requires 0.1 <= g <= 0.2 && -2 <= q <= 2
    requires 90.0 * q as real - 44.0 <= reflon <= 90.0 * q as real + 45.0
    ensures Renormalize(QuadrantShift(g, reflon)) == g + (if q == 2 then -2 else q) as real * 90.0
  {
    QuadrantOf(g, reflon, q);
    if q == 2 {
      RenormalizeUnique(g - 180.0, 1);
    } else {
      RenormalizeUnique(g + q as real * 90.0, 0);
    }
  }

  /** The Cambridge pair against a reference in the northern hemisphere (at or
      above 8 degrees; the test samples 8, 52 and 90) and within 45 degrees of
      q quarter turns in longitude: the apron position, its longitude moved by
      q quarter turns into [-180, 180). */
  lemma SurfaceNorthVector(reflat: real, reflon: real, q: int, odd: bool)
    requires 8.0 <= reflat <= 90.0
    requires -2 <= q <= 2 && 90.0 * q as real - 44.0 <= reflon <= 90.0 * q as real + 45.0
    ensures var k := if q == 2 then -2 else q;
      GlobalSurface(reflat, reflon, 105730, 9259, 29693, 8997, odd) ==
      if odd then
        Decoded(Position(90.0 / 59.0 * (34.0 + 29693.0 / Scale), 90.0 / 35.0 * (8997.0 / Scale) + k as real * 90.0))
      else
        Decoded(Position(1.5 * (34.0 + 105730.0 / Scale), 2.5 * (9259.0 / Scale) + k as real * 90.0))
  {
    var j := LatIndex(105730, 29693);
    var c0 := CellPoint(90.0 / 60.0, 60, j, 105730);
    var c1 := CellPoint(90.0 / 59.0, 59, j, 29693);
    SurfaceCandidates(c0, c1);
    var rlat0 := SnapLat(c0, reflat);
    var rlat1 := SnapLat(c1, reflat);
    assert rlat0 == c0 && rlat1 == c1;
    ZoneCountOfBand(rlat0, 36);
    ZoneCountOfBand(rlat1, 36);
    SurfaceSteps(reflat, reflon, 105730, 9259, 29693, 8997, odd, rlat0, rlat1);
    assert LonIndex(9259, 8997, 36) == 0;
    var rlat := if odd then rlat1 else rlat0;
    var g := if odd then 90.0 / 35.0 * (8997.0 / Scale) else 2.5 * (9259.0 / Scale);
    assert GlobalLon(rlat, odd, true, 9259, 8997) == g;
    QuadrantLon(g, reflon, q);
  }

  /** The Cambridge pair against a reference in the southern half of the
      globe (at or below 7 degrees; the test samples 7, -52 and -90) and within
      45 degrees of q quarter turns in longitude: the southern solution 90
      degrees lower, whose latitude has 47 zones, its longitude moved by q
      quarter turns into [-180, 180). */
  lemma SurfaceSouthVector(reflat: real, reflon: real, q: int, odd: bool)
    requires -90.0 <= reflat <= 7.0
    requires -2 <= q <= 2 && 90.0 * q as real - 44.0 <= reflon <= 90.0 * q as real + 45.0
    ensures var k := if q == 2 then -2 else q;
      GlobalSurface(reflat, reflon, 105730, 9259, 29693, 8997, odd) ==
      if odd then
        Decoded(Position(90.0 / 59.0 * (34.0 + 29693.0 / Scale) - 90.0, 90.0 / 46.0 * (8997.0 / Scale) + k as real * 90.0))
      else
        Decoded(Position(1.5 * (34.0 + 105730.0 / Scale) - 90.0, 90.0 / 47.0 * (9259.0 / Scale) + k as real * 90.0))
  {
    var j := LatIndex(105730, 29693);
    var c0 := CellPoint(90.0 / 60.0, 60, j, 105730);
    var c1 := CellPoint(90.0 / 59.0, 59, j, 29693);
    SurfaceCandidates(c0, c1);
    var rlat0 := SnapLat(c0, reflat);
    var rlat1 := SnapLat(c1, reflat);
    assert rlat0 == c0 - 90.0 && rlat1 == c1 - 90.0;
    ZoneCountOfBand(rlat0, 47);
    ZoneCountOfBand(rlat1, 47);
    SurfaceSteps(reflat, reflon, 105730, 9259, 29693, 8997, odd, rlat0, rlat1);
    assert LonIndex(9259, 8997, 47) == 0;
    var rlat := if odd then rlat1 else rlat0;
    var g := if odd then 90.0 / 46.0 * (8997.0 / Scale) else 90.0 / 47.0 * (9259.0 / Scale);
    assert GlobalLon(rlat, odd, true, 9259, 8997) == g;
    QuadrantLon(g, reflon, q);
  }

  /** testCPRGlobalSurface on the Cambridge pair: the expected positions for
      every reference the test uses. */
  lemma SurfaceVectors(reflat: real, reflon: real, odd: bool)
    ensures reflat == 52.0 && reflon in {-180.0, -140.0, 140.0, 180.0} ==>
      DecodesNear(GlobalSurface(reflat, reflon, 105730, 9259, 29693, 8997, odd),
                  if odd then 52.209976 else 52.209984, (if odd then 0.176507 else 0.176601) - 180.0)
    ensures reflat == 52.0 && reflon in {-130.0, -50.0} ==>
      DecodesNear(GlobalSurface(reflat, reflon, 105730, 9259, 29693, 8997, odd),
                  if odd then 52.209976 else 52.209984, (if odd then 0.176507 else 0.176601) - 90.0)
    ensures (reflat == 52.0 && reflon in {-40.0, -10.0, 0.0, 10.0, 40.0})
            || (reflat in {90.0, 8.0} && reflon == 0.0) ==>
      DecodesNear(GlobalSurface(reflat, reflon, 105730, 9259, 29693, 8997, odd),
                  if odd then 52.209976 else 52.209984, if odd then 0.176507 else 0.176601)
    ensures reflat == 52.0 && reflon in {50.0, 130.0} ==>
      DecodesNear(GlobalSurface(reflat, reflon, 105730, 9259, 29693, 8997, odd),
                  if odd then 52.209976 else 52.209984, (if odd then 0.176507 else 0.176601) + 90.0)
    ensures reflat in {7.0, -52.0, -90.0} && reflon == 0.0 ==>
      DecodesNear(GlobalSurface(reflat, reflon, 105730, 9259, 29693, 8997, odd),
                  (if odd then 52.209976 else 52.209984) - 90.0, if odd then 0.134299 else 0.135269)
  {
    if reflat == 52.0 && reflon in {-180.0, -140.0} {
      SurfaceNorthVector(reflat, reflon, -2, odd);
    } else if reflat == 52.0 && reflon in {140.0, 180.0} {
      SurfaceNorthVector(reflat, reflon, 2, odd);
    } else if reflat == 52.0 && reflon in {-130.0, -50.0} {
      SurfaceNorthVector(reflat, reflon, -1, odd);
    } else if (reflat == 52.0 && reflon in {-40.0, -10.0, 0.0, 10.0, 40.0})
              || (reflat in {90.0, 8.0} && reflon == 0.0) {
      SurfaceNorthVector(reflat, reflon, 0, odd);
    } else if reflat == 52.0 && reflon in {50.0, 130.0} {
      SurfaceNorthVector(reflat, reflon, 1, odd);
    } else if reflat in {7.0, -52.0, -90.0} && reflon == 0.0 {
      SurfaceSouthVector(reflat, reflon, 0, odd);
    }
  }

  /** testCPRGlobalSurface on all-zero fields (the poles and the equator): the
      candidate 0 stands for the pole or the equator nearest the reference,
      and longitude 0 is moved into the quadrant of the reference -180. */
  lemma SurfaceZeroVector(reflat: real, odd: bool)
    ensures GlobalSurface(reflat, -180.0, 0, 0, 0, 0, odd) ==
      Decoded(Position(if reflat < -45.0 then -90.0 else if reflat > 45.0 then 90.0 else 0.0, -180.0))
  {
    var j := LatIndex(0, 0);
    assert j == 0;
    var c0 := CellPoint(90.0 / 60.0, 60, j, 0);
    var c1 := CellPoint(90.0 / 59.0, 59, j, 0);
    assert CprModInt(0, 60) == 0 && CprModInt(0, 59) == 0;
    assert c0 == 0.0 && c1 == 0.0;
    var s := SnapLat(0.0, reflat);
    SurfaceSteps(reflat, -180.0, 0, 0, 0, 0, odd, s, s);
    var nl := ZoneCount(s);
    assert LonIndex(0, 0, nl) == 0;
    assert CprModInt(0, ZoneNumber(s, odd)) == 0;
    assert GlobalLon(s, odd, true, 0, 0) == 0.0;
    assert QuadrantShift(0.0, -180.0) == -180.0;
    RenormalizeUnique(-180.0, 0);
  }

  // Relative decoding (testCPRRelative).

  /** A relative-decoding vector as an instance of RelativeRecovers: the
      position at offsets (cprlat, cprlon) of latitude cell k (of width d) and
      longitude zone m (of width w, at a latitude with nl zones) is recovered
      from any reference within half a cell of it. */
  lemma RelativeVector(reflat: real, reflon: real, cprlat: int, cprlon: int, odd: bool,
                       surface: bool, k: int, m: int, nl: int, d: real, w: real, lat: real, lon: real)
    requires IsField(cprlat) && IsField(cprlon)
    requires d == LatCell(odd, surface) && lat == GridPoint(d, k, cprlat as real / Scale)
    requires Abs(lat) <= 90.0 && InZoneBand(Abs(lat), nl)
    requires w == Span(surface) / (if odd && nl > 1 then nl - 1 else nl) as real
    requires lon == GridPoint(w, m, cprlon as real / Scale) && -180.0 <= lon <= 180.0
    requires -d / 2.0 < lat - reflat <= d / 2.0 && -w / 2.0 < lon - reflon <= w / 2.0
    ensures Relative(reflat, reflon, cprlat, cprlon, odd, surface) == Decoded(Position(lat, lon))
  {
    ZoneCountOfBand(lat, nl);
    assert ZoneWidth(lat, odd, surface) == w;
    OffsetOfGridPoint(d, k, cprlat as real / Scale);
    OffsetOfGridPoint(w, m, cprlon as real / Scale);
    RelativeRecovers(reflat, reflon, lat, lon, cprlat, cprlon, odd, surface);
  }

  /** testCPRRelative, airborne packets: each decodes to its expected position
      from any reference between 48.7 and 54.6 degrees of latitude and -4.1
      and 5.4 degrees of longitude, the extremes the test samples. */
  lemma RelativeAirborneVectors(reflat: real, reflon: real)
    requires 48.7 <= reflat <= 54.6 && -4.1 <= reflon <= 5.4
    ensures DecodesNear(Relative(reflat, reflon, 80536, 9432, false, false), 51.686646, 0.700156)
    ensures DecodesNear(Relative(reflat, reflon, 61720, 9192, true, false), 51.686763, 0.701294)
    ensures DecodesNear(Relative(reflat, reflon, 80534, 9413, false, false), 51.686554, 0.698745)
    ensures DecodesNear(Relative(reflat, reflon, 61714, 9144, true, false), 51.686484, 0.697632)
  {
    RelativeVector(reflat, reflon, 80536, 9432, false, false, 8, 0, 37, 6.0, 360.0 / 37.0,
                   GridPoint(6.0, 8, 80536.0 / Scale), GridPoint(360.0 / 37.0, 0, 9432.0 / Scale));
    RelativeVector(reflat, reflon, 61720, 9192, true, false, 8, 0, 37, 360.0 / 59.0, 10.0,
                   GridPoint(360.0 / 59.0, 8, 61720.0 / Scale), GridPoint(10.0, 0, 9192.0 / Scale));
    RelativeVector(reflat, reflon, 80534, 9413, false, false, 8, 0, 37, 6.0, 360.0 / 37.0,
                   GridPoint(6.0, 8, 80534.0 / Scale), GridPoint(360.0 / 37.0, 0, 9413.0 / Scale));
    RelativeVector(reflat, reflon, 61714, 9144, true, false, 8, 0, 37, 360.0 / 59.0, 10.0,
                   GridPoint(360.0 / 59.0, 8, 61714.0 / Scale), GridPoint(10.0, 0, 9144.0 / Scale));
  }

  /** testCPRRelative, surface packets: each decodes to its expected position
      from any reference between 51.46 and 52.95 degrees of latitude and -1.05
      and 1.4 degrees of longitude, the extremes the test samples. */
  lemma RelativeSurfaceVectors(reflat: real, reflon: real)
    requires 51.46 <= reflat <= 52.95 && -1.05 <= reflon <= 1.4
    ensures DecodesNear(Relative(reflat, reflon, 105730, 9259, false, true), 52.209984, 0.176601)
    ensures DecodesNear(Relative(reflat, reflon, 29693, 8997, true, true), 52.209976, 0.176507)
  {
    RelativeVector(reflat, reflon, 105730, 9259, false, true, 34, 0, 36, 1.5, 2.5,
                   GridPoint(1.5, 34, 105730.0 / Scale), GridPoint(2.5, 0, 9259.0 / Scale));
    RelativeVector(reflat, reflon, 29693, 8997, true, true, 34, 0, 36, 90.0 / 59.0, 90.0 / 35.0,
                   GridPoint(90.0 / 59.0, 34, 29693.0 / Scale), GridPoint(90.0 / 35.0, 0, 8997.0 / Scale));
  }
}
