/** The three CPR position decoders of the CPR class as functions of their
    inputs: the global airborne decoder (an even and an odd packet), the global
    surface decoder (two packets and a reference position) and the local
    decoder relative to a reference position. */
module CprDecode {
  import opened CprArith
  import opened CprTable

  /** 2^17: a CPR field holds a fraction of a cell in 17 bits. */
  const Scale: real := 131072.0

  /** A raw CPR field as carried in a message: 17 bits. */
  predicate IsField(raw: int)
  {
    0 <= raw < 131072
  }

  datatype Position = Position(lat: real, lon: real)

  /** Why a decoder gave up. */
  datatype CprError =
    | BadData         // a global latitude candidate outside -90..90
    | ZoneMismatch    // the even and odd latitudes lie in different zones
    | LatitudeError   // relative decoding: latitude out of range or too far
    | LongitudeError  // relative decoding: longitude too far from the reference

  datatype Decoded = Decoded(pos: Position) | Failed(error: CprError)

  /** The decoders' integer return code: 0 on success, -2 for bad data and -1
      for every other failure. */
  function Status(d: Decoded): (s: int)
    ensures s == 0 <==> d.Decoded?
    ensures s == -2 <==> d == Failed(BadData)
    ensures s == -1 <==> d.Failed? && d.error != BadData
  {
    match d
    case Decoded(_) => 0
    case Failed(BadData) => -2
    case Failed(_) => -1
  }

  predicate InLatRange(lat: real)
  {
    -90.0 <= lat <= 90.0
  }

  /** The global decoders' latitude index j: the whole number of cells the
      even and odd fields differ by, rounded. */
  function LatIndex(lat0: int, lat1: int): int
  {
    ((59.0 * lat0 as real - 60.0 * lat1 as real) / Scale + 0.5).Floor
  }

  /** The global decoders' longitude index m, for a latitude with nl zones. */
  function LonIndex(lon0: int, lon1: int, nl: int): int
  {
    ((lon0 as real * (nl - 1) as real - lon1 as real * nl as real) / Scale + 0.5).Floor
  }

  /** The point at offset raw / 2^17 inside cell number idx mod n of a grid of
      cells of width cell: a decoded candidate before any wrap-around. */
  function CellPoint(cell: real, n: int, idx: int, raw: int): real
    requires cell > 0.0 && n > 0
  {
    GridPoint(cell, CprModInt(idx, n), raw as real / Scale)
  }

  /** A candidate decoded from a 17-bit field lies in the first n cells, and
      encoding it again gives back the field. */
  lemma {:induction false} CellPointEncodes(cell: real, n: int, idx: int, raw: int)
    requires cell > 0.0 && n > 0 && IsField(raw)
    ensures 0.0 <= CellPoint(cell, n, idx, raw) < cell * n as real
    ensures CellOffset(CellPoint(cell, n, idx, raw), cell) == raw as real / Scale
  {
    var c := CprModInt(idx, n);
    var f := raw as real / Scale;
    OffsetOfGridPoint(cell, c, f);
    CellBelowEnd(cell, c, f, n);
  }

  /** A point inside one of the first n cells lies below the n-th cell's end. */
  lemma CellBelowEnd(cell: real, c: int, f: real, n: int)
    requires cell > 0.0 && 0 <= c < n && 0.0 <= f < 1.0
    ensures 0.0 <= cell * (c as real + f) < cell * n as real
  {
    assert c as real + f < n as real;
    MulLess(cell, c as real + f, n as real);
  }

  lemma MulLess(c: real, x: real, y: real)
    requires c > 0.0 && x < y
    ensures c * x < c * y
  {
  }

  /** An airborne latitude candidate at or above 270 degrees stands for the
      southern latitude 360 degrees lower. */
  function Unwrap(rlat: real): real
  {
    if rlat >= 270.0 then rlat - 360.0 else rlat
  }

  /** The surface decoder's choice between the northern and southern solution:
      a candidate of 0 may stand for -90, 0 or +90, any other candidate for
      itself or itself minus 90. */
  function SnapLat(rlat: real, reflat: real): (s: real)
    ensures rlat == 0.0 ==> s == -90.0 || s == 0.0 || s == 90.0
    ensures rlat != 0.0 ==> s == rlat || s == rlat - 90.0
  {
    if rlat == 0.0 then
      if reflat < -45.0 then -90.0 else if reflat > 45.0 then 90.0 else 0.0
    else if rlat - reflat > 45.0 then
      rlat - 90.0
    else
      rlat
  }

  /** SnapLat picks, among the solutions a candidate stands for, the one
      nearest the reference latitude. */
  lemma SnapLatNearest(rlat: real, reflat: real)
    ensures var s := SnapLat(rlat, reflat);
      rlat == 0.0 ==>
        Abs(s - reflat) <= Abs(-90.0 - reflat) && Abs(s - reflat) <= Abs(reflat)
        && Abs(s - reflat) <= Abs(90.0 - reflat)
    ensures var s := SnapLat(rlat, reflat);
      rlat != 0.0 ==>
        Abs(s - reflat) <= Abs(rlat - reflat) && Abs(s - reflat) <= Abs(rlat - 90.0 - reflat)
  {
  }

  /** The longitude of the packet fflag selects, from the latitude rlat both
      packets agree on: a point in the zone grid of that packet. */
  function GlobalLon(rlat: real, odd: bool, surface: bool, lon0: int, lon1: int): real
  {
    var nl := ZoneCount(rlat);
    var m := LonIndex(lon0, lon1, nl);
    var ni := ZoneNumber(rlat, odd);
    CellPoint(ZoneWidth(rlat, odd, surface), ni, m, if odd then lon1 else lon0)
  }

  /** GlobalLon in terms of the values the decoder methods compute one by one. */
  lemma GlobalLonSteps(rlat: real, odd: bool, surface: bool, lon0: int, lon1: int,
                       nl: int, ni: int, m: int, dlon: real)
    requires nl == ZoneCount(rlat) && ni == ZoneNumber(rlat, odd)
    requires m == LonIndex(lon0, lon1, nl) && dlon == ZoneWidth(rlat, odd, surface)
    ensures GlobalLon(rlat, odd, surface, lon0, lon1) == CellPoint(dlon, ni, m, if odd then lon1 else lon0)
  {
  }

  /** decodeCPRairborne: the global airborne decoder. */
  function GlobalAirborne(lat0: int, lon0: int, lat1: int, lon1: int, odd: bool): (r: Decoded)
    ensures r.Decoded? ==> InLatRange(r.pos.lat) && -180.0 <= r.pos.lon < 180.0
  {
    var j := LatIndex(lat0, lat1);
    var rlat0 := Unwrap(CellPoint(360.0 / 60.0, 60, j, lat0));
    var rlat1 := Unwrap(CellPoint(360.0 / 59.0, 59, j, lat1));
    if !InLatRange(rlat0) || !InLatRange(rlat1) then
      Failed(BadData)
    else if ZoneCount(rlat0) != ZoneCount(rlat1) then
      Failed(ZoneMismatch)
    else
      var rlat := if odd then rlat1 else rlat0;
      Decoded(Position(rlat, Renormalize(GlobalLon(rlat, odd, false, lon0, lon1))))
  }

  /** The outcome of GlobalAirborne from its two latitude candidates. */
  lemma AirborneSteps(lat0: int, lon0: int, lat1: int, lon1: int, odd: bool, rlat0: real, rlat1: real)
    requires rlat0 == Unwrap(CellPoint(360.0 / 60.0, 60, LatIndex(lat0, lat1), lat0))
    requires rlat1 == Unwrap(CellPoint(360.0 / 59.0, 59, LatIndex(lat0, lat1), lat1))
    ensures GlobalAirborne(lat0, lon0, lat1, lon1, odd) ==
      if !InLatRange(rlat0) || !InLatRange(rlat1) then Failed(BadData)
      else if ZoneCount(rlat0) != ZoneCount(rlat1) then Failed(ZoneMismatch)
      else
        var rlat := if odd then rlat1 else rlat0;
        Decoded(Position(rlat, Renormalize(GlobalLon(rlat, odd, false, lon0, lon1))))
  {
  }

  /** decodeCPRsurface: the global surface decoder; the reference position
      picks the hemisphere and the longitude quadrant. */
  function GlobalSurface(reflat: real, reflon: real, lat0: int, lon0: int, lat1: int, lon1: int,
                         odd: bool): (r: Decoded)
    ensures r.Decoded? ==> InLatRange(r.pos.lat) && -180.0 <= r.pos.lon < 180.0
  {
    var j := LatIndex(lat0, lat1);
    var rlat0 := SnapLat(CellPoint(90.0 / 60.0, 60, j, lat0), reflat);
    var rlat1 := SnapLat(CellPoint(90.0 / 59.0, 59, j, lat1), reflat);
    if !InLatRange(rlat0) || !InLatRange(rlat1) then
      Failed(BadData)
    else if ZoneCount(rlat0) != ZoneCount(rlat1) then
      Failed(ZoneMismatch)
    else
      var rlat := if odd then rlat1 else rlat0;
      var rlon := QuadrantShift(GlobalLon(rlat, odd, true, lon0, lon1), reflon);
      Decoded(Position(rlat, Renormalize(rlon)))
  }

  /** The outcome of GlobalSurface from its two latitude candidates. */
  lemma SurfaceSteps(reflat: real, reflon: real, lat0: int, lon0: int, lat1: int, lon1: int,
                     odd: bool, rlat0: real, rlat1: real)
    requires rlat0 == SnapLat(CellPoint(90.0 / 60.0, 60, LatIndex(lat0, lat1), lat0), reflat)
    requires rlat1 == SnapLat(CellPoint(90.0 / 59.0, 59, LatIndex(lat0, lat1), lat1), reflat)
    ensures GlobalSurface(reflat, reflon, lat0, lon0, lat1, lon1, odd) ==
      if !InLatRange(rlat0) || !InLatRange(rlat1) then Failed(BadData)
      else if ZoneCount(rlat0) != ZoneCount(rlat1) then Failed(ZoneMismatch)
      else
        var rlat := if odd then rlat1 else rlat0;
        Decoded(Position(rlat, Renormalize(QuadrantShift(GlobalLon(rlat, odd, true, lon0, lon1), reflon))))
  {
  }

  /** The index of the cell, on a grid of width cell, whose point at offset
      frac lies nearest ref: measured in cells, that point is less than half
      a cell below ref and at most half a cell above it. */
  function LocalIndex(ref: real, cell: real, frac: real): (j: int)
    requires cell > 0.0
    ensures -0.5 < j as real + frac - ref / cell <= 0.5
  {
    var q := (ref / cell).Floor;
    var rem := CprModReal(ref, cell);
    FractionOfRemainder(ref, cell, q, rem);
    q + (0.5 + rem / cell - frac).Floor
  }

  lemma FractionOfRemainder(ref: real, cell: real, q: int, rem: real)
    requires cell > 0.0 && rem == ref - q as real * cell
    ensures rem / cell == ref / cell - q as real
  {
    var mq := -q as real;
    assert rem == ref + mq * cell;
    DivAddMultiple(ref, cell, mq);
  }

  /** In degrees: the point LocalIndex picks lies within half a cell of ref,
      less than half a cell below it or at most half a cell above. */
  lemma {:induction false} LocalIndexNear(ref: real, cell: real, frac: real)
    requires cell > 0.0
    ensures -cell / 2.0 < cell * (LocalIndex(ref, cell, frac) as real + frac) - ref <= cell / 2.0
  {
    var y := LocalIndex(ref, cell, frac) as real + frac;
    CellsToDegrees(ref, cell, y);
  }

  /** A point within half a cell of ref, measured in cells, is within half a
      cell of it in degrees. */
  lemma CellsToDegrees(ref: real, cell: real, y: real)
    requires cell > 0.0 && -0.5 < y - ref / cell <= 0.5
    ensures -cell / 2.0 < cell * y - ref <= cell / 2.0
  {
    var u := ref / cell;
    var z := y - u;
    QuotientIs(ref, cell, u);
    assert cell * u == ref;
    DistributeSub(cell, y, u, z);
    assert cell * z == cell * y - cell * u;
    assert -0.5 < z <= 0.5;
    MulHalf(cell, z);
    assert -cell / 2.0 < cell * z <= cell / 2.0;
    assert cell * z == cell * y - ref;
  }

  lemma DistributeSub(c: real, y: real, u: real, z: real)
    requires z == y - u
    ensures c * z == c * y - c * u
  {
  }

  lemma MulHalf(c: real, z: real)
    requires c > 0.0 && -0.5 < z <= 0.5
    ensures -c / 2.0 < c * z <= c / 2.0
  {
  }

  /** Only one cell has its point at offset frac within half a cell of ref. */
  lemma {:induction false} LocalIndexUnique(ref: real, cell: real, frac: real, k: int)
    requires cell > 0.0
    requires -0.5 < k as real + frac - ref / cell <= 0.5
    ensures k == LocalIndex(ref, cell, frac)
  {
  }

  /** The latitude cell of the relative decoder. */
  function LatCell(odd: bool, surface: bool): (d: real)
    ensures d > 0.0
  {
    Span(surface) / (if odd then 59.0 else 60.0)
  }

  /** The relative decoder's latitude before its checks: the point with the
      received offset nearest reflat, with the 270-degree wrap applied. */
  function RelativeLat(reflat: real, cprlat: int, odd: bool, surface: bool): real
  {
    var d := LatCell(odd, surface);
    var fl := cprlat as real / Scale;
    Unwrap(GridPoint(d, LocalIndex(reflat, d, fl), fl))
  }

  /** The point with the received longitude offset nearest reflon, in the
      zone grid of the latitude rlat. */
  function NearestLon(reflon: real, rlat: real, cprlon: int, odd: bool, surface: bool): real
  {
    var w := ZoneWidth(rlat, odd, surface);
    var fo := cprlon as real / Scale;
    GridPoint(w, LocalIndex(reflon, w, fo), fo)
  }

  /** The relative decoder's longitude before its check, for the latitude rlat:
      the nearest point, moved down a turn when it lies beyond 180. */
  function RelativeLon(reflon: real, rlat: real, cprlon: int, odd: bool, surface: bool): real
  {
    var rlon := NearestLon(reflon, rlat, cprlon, odd, surface);
    if rlon > 180.0 then rlon - 360.0 else rlon
  }

  /** decodeCPRrelative: decoding of one packet near a reference position. A
      decoded position lies within half a cell of the reference in latitude
      and in longitude. */
  function Relative(reflat: real, reflon: real, cprlat: int, cprlon: int, odd: bool,
                    surface: bool): (r: Decoded)
    ensures r.Decoded? ==> InLatRange(r.pos.lat)
    ensures r.Decoded? ==> Abs(r.pos.lat - reflat) <= LatCell(odd, surface) / 2.0
    ensures r.Decoded? ==>
      Abs(r.pos.lon - reflon) <= ZoneWidth(r.pos.lat, odd, surface) / 2.0
  {
    var rlat := RelativeLat(reflat, cprlat, odd, surface);
    if !InLatRange(rlat) || Abs(rlat - reflat) > LatCell(odd, surface) / 2.0 then
      Failed(LatitudeError)
    else
      var rlon := RelativeLon(reflon, rlat, cprlon, odd, surface);
      if Abs(rlon - reflon) > ZoneWidth(rlat, odd, surface) / 2.0 then
        Failed(LongitudeError)
      else
        Decoded(Position(rlat, rlon))
  }

  /** The outcome of Relative from its latitude candidate. */
  lemma RelativeSteps(reflat: real, reflon: real, cprlat: int, cprlon: int, odd: bool,
                      surface: bool, rlat: real)
    requires rlat == RelativeLat(reflat, cprlat, odd, surface)
    ensures Relative(reflat, reflon, cprlat, cprlon, odd, surface) ==
      if !InLatRange(rlat) || Abs(rlat - reflat) > LatCell(odd, surface) / 2.0 then
        Failed(LatitudeError)
      else
        var rlon := RelativeLon(reflon, rlat, cprlon, odd, surface);
        if Abs(rlon - reflon) > ZoneWidth(rlat, odd, surface) / 2.0 then Failed(LongitudeError)
        else Decoded(Position(rlat, rlon))
  {
  }
}
