/** What the CPR decoders promise: a decoded position encodes back to the
    fields it came from, the surface decoder cannot report bad data for 17-bit
    fields, and the relative decoder recovers any position within half a cell
    of its reference. */
module CprProperties {
  import opened CprArith
  import opened CprTable
  import opened CprDecode

  /** Undoing the 270-degree wrap of a latitude candidate moves it by a whole
      turn, which keeps its offset in a grid whose cells divide the turn. */
  lemma {:induction false} UnwrapKeepsOffset(c: real, cell: real, nz: int)
    requires cell > 0.0 && cell * nz as real == 360.0
    ensures CellOffset(Unwrap(c), cell) == CellOffset(c, cell)
  {
    if c >= 270.0 {
      OffsetShiftSpan(c, cell, nz, 360.0, -1);
    }
  }

  /** Renormalising a longitude keeps its offset in a grid of n zones of
      width w that make up the whole turn. */
  lemma {:induction false} RenormalizeKeepsOffset(x: real, w: real, n: int)
    requires w > 0.0 && w * n as real == 360.0
    ensures CellOffset(Renormalize(x), w) == CellOffset(x, w)
  {
    var t := -((x + 180.0) / 360.0).Floor;
    var y := x + t as real * 360.0;
    assert Renormalize(x) == y;
    OffsetShiftSpan(x, w, n, 360.0, t);
  }

  /** The zones of a latitude's grid make up the decoder's whole span. */
  lemma {:induction false} ZoneWidthSpans(rlat: real, odd: bool, surface: bool, w: real, n: int)
    requires n == ZoneNumber(rlat, odd) && w == ZoneWidth(rlat, odd, surface)
    ensures w * n as real == Span(surface)
  {
    var span := Span(surface);
    ZoneWidthIsWidthOf(rlat, odd, surface, w, n, span);
    WidthSpans(w, n, span);
  }

  lemma ZoneWidthIsWidthOf(rlat: real, odd: bool, surface: bool, w: real, n: int, span: real)
    requires n == ZoneNumber(rlat, odd) && span == Span(surface)
    requires w == ZoneWidth(rlat, odd, surface)
    ensures w == WidthOf(span, n) && span > 0.0 && n >= 1
  {
  }

  lemma WidthSpans(w: real, n: int, span: real)
    requires span > 0.0 && n >= 1 && w == WidthOf(span, n)
    ensures w * n as real == span
  {
  }

  /** The longitude a global decoder computes lies at the offset of the field
      of the packet it used, in that packet's zone grid. */
  lemma {:induction false} GlobalLonEncodes(rlat: real, odd: bool, surface: bool, lon0: int, lon1: int)
    requires IsField(lon0) && IsField(lon1)
    ensures CellOffset(GlobalLon(rlat, odd, surface, lon0, lon1), ZoneWidth(rlat, odd, surface))
      == (if odd then lon1 else lon0) as real / Scale
  {
    var nl := ZoneCount(rlat);
    var ni := ZoneNumber(rlat, odd);
    var m := LonIndex(lon0, lon1, nl);
    var w := ZoneWidth(rlat, odd, surface);
    var raw := if odd then lon1 else lon0;
    GlobalLonSteps(rlat, odd, surface, lon0, lon1, nl, ni, m, w);
    CellPointEncodes(w, ni, m, raw);
  }

  /** The airborne longitude, renormalised, encodes back to the field of the
      packet it came from. */
  lemma {:induction false} AirborneLonEncodes(rlat: real, odd: bool, lon0: int, lon1: int)
    requires IsField(lon0) && IsField(lon1)
    ensures CellOffset(Renormalize(GlobalLon(rlat, odd, false, lon0, lon1)), ZoneWidth(rlat, odd, false))
      == (if odd then lon1 else lon0) as real / Scale
  {
    var x := GlobalLon(rlat, odd, false, lon0, lon1);
    GlobalLonEncodes(rlat, odd, false, lon0, lon1);
    var w := ZoneWidth(rlat, odd, false);
    var ni := ZoneNumber(rlat, odd);
    ZoneWidthSpans(rlat, odd, false, w, ni);
    RenormalizeKeepsOffset(x, w, ni);
  }

  /** An airborne latitude candidate encodes back to the field it came from. */
  lemma {:induction false} AirborneLatEncodes(cell: real, nz: int, j: int, raw: int)
    requires IsField(raw) && cell > 0.0 && nz > 0 && cell * nz as real == 360.0
    ensures CellOffset(Unwrap(CellPoint(cell, nz, j, raw)), cell) == raw as real / Scale
  {
    var c := CellPoint(cell, nz, j, raw);
    CellPointEncodes(cell, nz, j, raw);
    UnwrapKeepsOffset(c, cell, nz);
  }

  /** Decode, then encode: re-encoding the position decodeCPRairborne returns,
      with the cell sizes of the packet fflag selected, gives back that
      packet's latitude and longitude fields. */
  lemma {:induction false} AirborneReencodes(lat0: int, lon0: int, lat1: int, lon1: int, odd: bool)
    requires IsField(lat0) && IsField(lon0) && IsField(lat1) && IsField(lon1)
    ensures var r := GlobalAirborne(lat0, lon0, lat1, lon1, odd);
      r.Decoded? ==>
        CellOffset(r.pos.lat, if odd then 360.0 / 59.0 else 360.0 / 60.0)
          == (if odd then lat1 else lat0) as real / Scale
        && CellOffset(r.pos.lon, ZoneWidth(r.pos.lat, odd, false))
          == (if odd then lon1 else lon0) as real / Scale
  {
    var j := LatIndex(lat0, lat1);
    var rlat0 := Unwrap(CellPoint(360.0 / 60.0, 60, j, lat0));
    var rlat1 := Unwrap(CellPoint(360.0 / 59.0, 59, j, lat1));
    AirborneSteps(lat0, lon0, lat1, lon1, odd, rlat0, rlat1);
    if odd {
      AirborneLatEncodes(360.0 / 59.0, 59, j, lat1);
      AirborneLonEncodes(rlat1, odd, lon0, lon1);
    } else {
      AirborneLatEncodes(360.0 / 60.0, 60, j, lat0);
      AirborneLonEncodes(rlat0, odd, lon0, lon1);
    }
  }

  /** The surface decoder's snap moves a candidate by a whole quarter turn at
      most, which keeps its offset in a grid whose cells divide the quarter
      turn. */
  lemma {:induction false} SnapKeepsOffset(c: real, reflat: real, cell: real, nz: int)
    requires cell > 0.0 && cell * nz as real == 90.0
    ensures CellOffset(SnapLat(c, reflat), cell) == CellOffset(c, cell)
  {
    var s := SnapLat(c, reflat);
    if s == c - 90.0 {
      OffsetShiftSpan(c, cell, nz, 90.0, -1);
    } else if s == c + 90.0 {
      OffsetShiftSpan(c, cell, nz, 90.0, 1);
    } else {
      assert s == c;
    }
  }

  /** The quadrant step keeps a longitude's offset in a grid whose zones make
      up the quarter turn. */
  lemma {:induction false} QuadrantKeepsOffset(x: real, reflon: real, w: real, n: int)
    requires w > 0.0 && w * n as real == 90.0
    ensures CellOffset(QuadrantShift(x, reflon), w) == CellOffset(x, w)
  {
    var k := ((reflon - x + 45.0) / 90.0).Floor;
    assert QuadrantShift(x, reflon) == x + k as real * 90.0;
    OffsetShiftSpan(x, w, n, 90.0, k);
  }

  lemma QuarterToTurn(w: real, n: int, n4: int)
    requires w * n as real == 90.0 && n4 == 4 * n
    ensures w * n4 as real == 360.0
  {
  }

  /** The surface longitude, moved to its quadrant and renormalised, encodes
      back to the field of the packet it came from. */
  lemma {:induction false} SurfaceLonEncodes(rlat: real, reflon: real, odd: bool, lon0: int, lon1: int)
    requires IsField(lon0) && IsField(lon1)
    ensures CellOffset(Renormalize(QuadrantShift(GlobalLon(rlat, odd, true, lon0, lon1), reflon)),
                       ZoneWidth(rlat, odd, true))
      == (if odd then lon1 else lon0) as real / Scale
  {
    var x := GlobalLon(rlat, odd, true, lon0, lon1);
    GlobalLonEncodes(rlat, odd, true, lon0, lon1);
    var w := ZoneWidth(rlat, odd, true);
    var ni := ZoneNumber(rlat, odd);
    ZoneWidthSpans(rlat, odd, true, w, ni);
    var q := QuadrantShift(x, reflon);
    QuadrantKeepsOffset(x, reflon, w, ni);
    var n4 := 4 * ni;
    QuarterToTurn(w, ni, n4);
    RenormalizeKeepsOffset(q, w, n4);
  }

  /** A surface latitude candidate, snapped to its hemisphere, encodes back to
      the field it came from. */
  lemma {:induction false} SurfaceLatEncodes(cell: real, nz: int, j: int, raw: int, reflat: real)
    requires IsField(raw) && cell > 0.0 && nz > 0 && cell * nz as real == 90.0
    ensures CellOffset(SnapLat(CellPoint(cell, nz, j, raw), reflat), cell) == raw as real / Scale
  {
    var c := CellPoint(cell, nz, j, raw);
    CellPointEncodes(cell, nz, j, raw);
    SnapKeepsOffset(c, reflat, cell, nz);
  }

  /** Decode, then encode: re-encoding the position decodeCPRsurface returns,
      on the surface grid of the packet fflag selected, gives back that
      packet's latitude and longitude fields. */
  lemma {:induction false} SurfaceReencodes(reflat: real, reflon: real, lat0: int, lon0: int,
                                            lat1: int, lon1: int, odd: bool)
    requires IsField(lat0) && IsField(lon0) && IsField(lat1) && IsField(lon1)
    ensures var r := GlobalSurface(reflat, reflon, lat0, lon0, lat1, lon1, odd);
      r.Decoded? ==>
        CellOffset(r.pos.lat, if odd then 90.0 / 59.0 else 90.0 / 60.0)
          == (if odd then lat1 else lat0) as real / Scale
        && CellOffset(r.pos.lon, ZoneWidth(r.pos.lat, odd, true))
          == (if odd then lon1 else lon0) as real / Scale
  {
    var j := LatIndex(lat0, lat1);
    var rlat0 := SnapLat(CellPoint(90.0 / 60.0, 60, j, lat0), reflat);
    var rlat1 := SnapLat(CellPoint(90.0 / 59.0, 59, j, lat1), reflat);
    SurfaceSteps(reflat, reflon, lat0, lon0, lat1, lon1, odd, rlat0, rlat1);
    if odd {
      SurfaceLatEncodes(90.0 / 59.0, 59, j, lat1, reflat);
      SurfaceLonEncodes(rlat1, reflon, odd, lon0, lon1);
    } else {
      SurfaceLatEncodes(90.0 / 60.0, 60, j, lat0, reflat);
      SurfaceLonEncodes(rlat0, reflon, odd, lon0, lon1);
    }
  }

  /** A 17-bit latitude field decodes, on the surface, to a candidate the
      hemisphere snap keeps inside -90..90. */
  lemma {:induction false} SurfaceCandidateInRange(cell: real, nz: int, j: int, raw: int, reflat: real)
    requires IsField(raw) && cell > 0.0 && nz > 0 && cell * nz as real == 90.0
    ensures InLatRange(SnapLat(CellPoint(cell, nz, j, raw), reflat))
  {
    CellPointEncodes(cell, nz, j, raw);
  }

  /** decodeCPRsurface never reports bad data (-2) for 17-bit fields: both
      candidates lie in the first quarter turn, and the snap moves them at most
      a quarter turn south, or to a pole. */
  lemma {:induction false} SurfaceNoBadData(reflat: real, reflon: real, lat0: int, lon0: int,
                                            lat1: int, lon1: int, odd: bool)
    requires IsField(lat0) && IsField(lon0) && IsField(lat1) && IsField(lon1)
    ensures GlobalSurface(reflat, reflon, lat0, lon0, lat1, lon1, odd) != Failed(BadData)
  {
    var j := LatIndex(lat0, lat1);
    var rlat0 := SnapLat(CellPoint(90.0 / 60.0, 60, j, lat0), reflat);
    var rlat1 := SnapLat(CellPoint(90.0 / 59.0, 59, j, lat1), reflat);
    SurfaceSteps(reflat, reflon, lat0, lon0, lat1, lon1, odd, rlat0, rlat1);
    SurfaceCandidateInRange(90.0 / 60.0, 60, j, lat0, reflat);
    SurfaceCandidateInRange(90.0 / 59.0, 59, j, lat1, reflat);
  }

  /** For a reference latitude in -90..90 the relative decoder's latitude lies
      within half a cell of it, so its distance check never rejects: latitude
      errors come from the range check alone. */
  lemma {:induction false} RelativeLatNear(reflat: real, cprlat: int, odd: bool, surface: bool)
    requires InLatRange(reflat)
    ensures Abs(RelativeLat(reflat, cprlat, odd, surface) - reflat) <= LatCell(odd, surface) / 2.0
  {
    var d := LatCell(odd, surface);
    var fl := cprlat as real / Scale;
    var g := GridPoint(d, LocalIndex(reflat, d, fl), fl);
    LocalPointNear(reflat, d, fl, g);
    LatCellSmall(odd, surface, d);
    assert RelativeLat(reflat, cprlat, odd, surface) == g;
  }

  lemma LatCellSmall(odd: bool, surface: bool, d: real)
    requires d == LatCell(odd, surface)
    ensures d < 7.0
  {
  }

  /** The point the relative decoder picks lies within half a cell of the
      reference. */
  lemma {:induction false} LocalPointNear(ref: real, cell: real, frac: real, g: real)
    requires cell > 0.0 && g == GridPoint(cell, LocalIndex(ref, cell, frac), frac)
    ensures -cell / 2.0 < g - ref <= cell / 2.0
  {
    LocalIndexNear(ref, cell, frac);
  }

  /** A distance of less than half a cell in degrees is less than half a cell
      in cells. */
  lemma DegreesToCells(ref: real, cell: real, x: real)
    requires cell > 0.0 && -cell / 2.0 < x - ref <= cell / 2.0
    ensures -0.5 < x / cell - ref / cell <= 0.5
  {
    var z := x / cell - ref / cell;
    assert cell * z == x - ref;
  }

  /** The point the relative decoder picks is x itself when x lies at the
      received offset and within half a cell of the reference. */
  lemma {:induction false} LocalPointIs(ref: real, cell: real, frac: real, x: real)
    requires cell > 0.0 && frac == CellOffset(x, cell)
    requires -cell / 2.0 < x - ref <= cell / 2.0
    ensures GridPoint(cell, LocalIndex(ref, cell, frac), frac) == x
  {
    var k := (x / cell).Floor;
    GridPointOfOffset(x, cell, k, frac);
    DegreesToCells(ref, cell, x);
    assert k as real + frac == x / cell;
    LocalIndexUnique(ref, cell, frac, k);
  }

  /** Encode, then decode: decodeCPRrelative recovers exactly any position
      whose fields it is given, as long as the position lies within half a
      cell of the reference in latitude and within half a zone in longitude
      (without crossing the antimeridian). */
  lemma {:induction false} RelativeRecovers(reflat: real, reflon: real, lat: real, lon: real,
                                            cprlat: int, cprlon: int, odd: bool, surface: bool)
    requires InLatRange(lat) && -180.0 <= lon <= 180.0
    requires cprlat as real / Scale == CellOffset(lat, LatCell(odd, surface))
    requires cprlon as real / Scale == CellOffset(lon, ZoneWidth(lat, odd, surface))
    requires -LatCell(odd, surface) / 2.0 < lat - reflat <= LatCell(odd, surface) / 2.0
    requires -ZoneWidth(lat, odd, surface) / 2.0 < lon - reflon <= ZoneWidth(lat, odd, surface) / 2.0
    ensures Relative(reflat, reflon, cprlat, cprlon, odd, surface) == Decoded(Position(lat, lon))
  {
    RelativeLatRecovered(reflat, lat, cprlat, odd, surface);
    NearestLonRecovered(reflon, lat, lon, 0, cprlon, odd, surface);
    assert RelativeLon(reflon, lat, cprlon, odd, surface) == lon;
    RelativeSteps(reflat, reflon, cprlat, cprlon, odd, surface, lat);
  }

  /** The relative decoder's latitude is any latitude at the received offset
      within half a cell of the reference. */
  lemma {:induction false} RelativeLatRecovered(reflat: real, lat: real, cprlat: int, odd: bool,
                                                surface: bool)
    requires InLatRange(lat)
    requires cprlat as real / Scale == CellOffset(lat, LatCell(odd, surface))
    requires -LatCell(odd, surface) / 2.0 < lat - reflat <= LatCell(odd, surface) / 2.0
    ensures RelativeLat(reflat, cprlat, odd, surface) == lat
  {
    var d := LatCell(odd, surface);
    LocalPointIs(reflat, d, cprlat as real / Scale, lat);
  }

  /** The relative decoder's nearest longitude point is lon, moved by the k
      whole turns that bring it within half a zone of the reference. */
  lemma {:induction false} NearestLonRecovered(reflon: real, lat: real, lon: real, k: int, cprlon: int,
                                               odd: bool, surface: bool)
    requires cprlon as real / Scale == CellOffset(lon, ZoneWidth(lat, odd, surface))
    requires -ZoneWidth(lat, odd, surface) / 2.0 < lon + k as real * 360.0 - reflon
               <= ZoneWidth(lat, odd, surface) / 2.0
    ensures NearestLon(reflon, lat, cprlon, odd, surface) == lon + k as real * 360.0
  {
    var w := ZoneWidth(lat, odd, surface);
    var ni := ZoneNumber(lat, odd);
    ZoneWidthSpans(lat, odd, surface, w, ni);
    var n := ni * (if surface then 4 else 1);
    SpanTurn(w, ni, surface, n);
    var x := lon + k as real * 360.0;
    OffsetShiftSpan(lon, w, n, 360.0, k);
    LocalPointIs(reflon, w, cprlon as real / Scale, x);
  }

  /** The latitude cells of the relative decoder divide a whole turn. */
  lemma LatCellTurn(odd: bool, surface: bool, d: real, n: int)
    requires d == LatCell(odd, surface)
    requires n == (if odd then 59 else 60) * (if surface then 4 else 1)
    ensures d * n as real == 360.0
  {
  }

  /** A span's zones, repeated as often as the span fits in a turn, divide the
      turn. */
  lemma SpanTurn(w: real, ni: int, surface: bool, n: int)
    requires w * ni as real == Span(surface)
    requires n == ni * (if surface then 4 else 1)
    ensures w * n as real == 360.0
  {
    if surface {
      assert w * n as real == 4.0 * (w * ni as real);
    }
  }

  /** The relative decoder's latitude encodes back to the received field. */
  lemma {:induction false} RelativeLatEncodes(reflat: real, cprlat: int, odd: bool, surface: bool)
    requires IsField(cprlat)
    ensures CellOffset(RelativeLat(reflat, cprlat, odd, surface), LatCell(odd, surface))
      == cprlat as real / Scale
  {
    var d := LatCell(odd, surface);
    var fl := cprlat as real / Scale;
    var j := LocalIndex(reflat, d, fl);
    var g := GridPoint(d, j, fl);
    OffsetOfGridPoint(d, j, fl);
    assert CellOffset(g, d) == fl;
    var n := (if odd then 59 else 60) * (if surface then 4 else 1);
    LatCellTurn(odd, surface, d, n);
    UnwrapKeepsOffset(g, d, n);
    assert RelativeLat(reflat, cprlat, odd, surface) == Unwrap(g);
  }

  /** The relative decoder's longitude encodes back to the received field. */
  lemma {:induction false} RelativeLonEncodes(reflon: real, rlat: real, cprlon: int, odd: bool,
                                              surface: bool)
    requires IsField(cprlon)
    ensures CellOffset(RelativeLon(reflon, rlat, cprlon, odd, surface), ZoneWidth(rlat, odd, surface))
      == cprlon as real / Scale
  {
    var w := ZoneWidth(rlat, odd, surface);
    var ni := ZoneNumber(rlat, odd);
    var fo := cprlon as real / Scale;
    var j := LocalIndex(reflon, w, fo);
    var g := GridPoint(w, j, fo);
    OffsetOfGridPoint(w, j, fo);
    assert CellOffset(g, w) == fo;
    ZoneWidthSpans(rlat, odd, surface, w, ni);
    var n := ni * (if surface then 4 else 1);
    SpanTurn(w, ni, surface, n);
    if g > 180.0 {
      OffsetShiftSpan(g, w, n, 360.0, -1);
      assert RelativeLon(reflon, rlat, cprlon, odd, surface) == g - 360.0;
    } else {
      assert RelativeLon(reflon, rlat, cprlon, odd, surface) == g;
    }
  }

  /** Decode, then encode: a position decodeCPRrelative returns encodes back
      to the fields it was given. */
  lemma {:induction false} RelativeReencodes(reflat: real, reflon: real, cprlat: int, cprlon: int,
                                             odd: bool, surface: bool)
    requires IsField(cprlat) && IsField(cprlon)
    ensures var r := Relative(reflat, reflon, cprlat, cprlon, odd, surface);
      r.Decoded? ==>
        CellOffset(r.pos.lat, LatCell(odd, surface)) == cprlat as real / Scale
        && CellOffset(r.pos.lon, ZoneWidth(r.pos.lat, odd, surface)) == cprlon as real / Scale
  {
    var rlat := RelativeLat(reflat, cprlat, odd, surface);
    RelativeSteps(reflat, reflon, cprlat, cprlon, odd, surface, rlat);
    RelativeLatEncodes(reflat, cprlat, odd, surface);
    RelativeLonEncodes(reflon, rlat, cprlon, odd, surface);
  }

  /** The latitude zone indices of a latitude in -90..90: about a quarter of
      each grid's cells lie on either side of the equator. */
  lemma LatZoneBounds(lat: real, n0: int, n1: int)
    requires InLatRange(lat)
    requires n0 == (lat / (360.0 / 60.0)).Floor && n1 == (lat / (360.0 / 59.0)).Floor
    ensures -15 <= n0 <= 15 && -15 <= n1 <= 14
  {
  }

  /** With exact fields, the latitude index of the global decoders is the
      whole difference 60 n1 - 59 n0 of the odd and even zone indices. */
  lemma LatIndexExact(lat: real, lat0: int, lat1: int, n0: int, n1: int)
    requires lat0 as real / Scale == CellOffset(lat, 360.0 / 60.0)
    requires lat1 as real / Scale == CellOffset(lat, 360.0 / 59.0)
    requires n0 == (lat / (360.0 / 60.0)).Floor && n1 == (lat / (360.0 / 59.0)).Floor
    ensures LatIndex(lat0, lat1) == 60 * n1 - 59 * n0
  {
    var f0 := lat0 as real / Scale;
    var f1 := lat1 as real / Scale;
    assert f0 == lat / 6.0 - n0 as real;
    assert f1 == lat * 59.0 / 360.0 - n1 as real;
    assert (59.0 * lat0 as real - 60.0 * lat1 as real) / Scale == 59.0 * f0 - 60.0 * f1;
    assert 59.0 * f0 - 60.0 * f1 == (60 * n1 - 59 * n0) as real;
  }

  /** A cell point whose index agrees with the zone index n of lat modulo nz,
      and whose offset is that of lat, is lat itself or, south of the
      equator, lat plus a turn, which the unwrap undoes. */
  lemma {:induction false} AirborneLatRecovered(lat: real, cell: real, nz: int, j: int, n: int, raw: int)
    requires InLatRange(lat) && cell > 0.0 && nz > 0 && cell * nz as real == 360.0
    requires n == (lat / cell).Floor && -nz <= n < nz && j % nz == n % nz
    requires raw as real / Scale == CellOffset(lat, cell)
    ensures Unwrap(CellPoint(cell, nz, j, raw)) == lat
  {
    var f := raw as real / Scale;
    var c := CprModInt(j, nz);
    SmallIndex(j, nz, n);
    GridPointOfOffset(lat, cell, n, f);
    UnwrapCell(lat, cell, nz, c, n, f);
  }

  /** cprModInt of an index congruent to a small n is n, or n + nz for a
      negative n. */
  lemma {:induction false} SmallIndex(j: int, nz: int, n: int)
    requires nz > 0 && -nz <= n < nz && j % nz == n % nz
    ensures CprModInt(j, nz) == if n >= 0 then n else n + nz
  {
    ModIntIsEuclidean(j, nz);
    if n >= 0 {
      ModUnique(n, nz, 0, n);
    } else {
      ModUnique(n, nz, -1, n + nz);
    }
  }

  /** The point of lat's offset in cell c, where c is lat's cell n or, south
      of the equator, n + nz, unwraps to lat. */
  lemma {:induction false} UnwrapCell(lat: real, cell: real, nz: int, c: int, n: int, f: real)
    requires InLatRange(lat) && cell > 0.0 && cell * nz as real == 360.0
    requires GridPoint(cell, n, f) == lat
    requires c == if n >= 0 then n else n + nz
    ensures Unwrap(GridPoint(cell, c, f)) == lat
  {
    var x := n as real + f;
    if n >= 0 {
      assert GridPoint(cell, c, f) == cell * x;
    } else {
      assert c as real + f == x + nz as real;
      MulAdd(cell, x, nz as real);
      assert GridPoint(cell, c, f) == lat + 360.0;
    }
  }

  lemma MulAdd(c: real, x: real, y: real)
    ensures c * (x + y) == c * x + c * y
  {
  }

  /** Division by a zone width that splits the turn into n zones. */
  lemma DivWidth(x: real, w: real, n: int)
    requires w > 0.0 && w * n as real == 360.0
    ensures x / w == x / 360.0 * n as real
  {
    var u := x / 360.0;
    assert u * 360.0 == x;
    assert (u * n as real) * w == u * 360.0;
  }

  /** With exact fields and nl >= 2, the longitude index of the global
      decoders is the whole difference nl a1 - (nl - 1) a0 of the odd and even
      zone indices. */
  lemma {:induction false} LonIndexExact(lon: real, lon0: int, lon1: int, nl: int, nl1: int,
                                         w0: real, w1: real, a0: int, a1: int)
    requires nl >= 2 && nl1 == nl - 1 && w0 > 0.0 && w1 > 0.0
    requires w0 * nl as real == 360.0 && w1 * nl1 as real == 360.0
    requires lon0 as real / Scale == CellOffset(lon, w0) && lon1 as real / Scale == CellOffset(lon, w1)
    requires a0 == (lon / w0).Floor && a1 == (lon / w1).Floor
    ensures LonIndex(lon0, lon1, nl) == nl * a1 - nl1 * a0
  {
    var u := lon / 360.0;
    var p := nl as real;
    var q := nl1 as real;
    var a0r, a1r := a0 as real, a1 as real;
    assert lon0 as real / Scale == u * p - a0r by {
      OffsetInTurns(lon, w0, nl, a0, lon0 as real / Scale, u, p);
    }
    assert lon1 as real / Scale == u * q - a1r by {
      OffsetInTurns(lon, w1, nl1, a1, lon1 as real / Scale, u, q);
    }
    var k := nl * a1 - nl1 * a0;
    assert k as real == a1r * p - a0r * q by {
      CastIndex(nl, nl1, a0, a1, k);
    }
    assert (lon0 as real * q - lon1 as real * p) / Scale == k as real by {
      IndexCombination(lon0 as real, lon1 as real, p, q, u, a0r, a1r, k as real);
    }
    LonIndexIs(lon0, lon1, nl, nl1, p, q, k as real);
  }

  /** The longitude index is the combination of the fields, rounded. */
  lemma LonIndexIs(lon0: int, lon1: int, nl: int, nl1: int, p: real, q: real, e: real)
    requires nl1 == nl - 1 && p == nl as real && q == nl1 as real
    requires e == (lon0 as real * q - lon1 as real * p) / Scale
    ensures LonIndex(lon0, lon1, nl) == (e + 0.5).Floor
  {
  }

  /** The combination of the two exact fields that the longitude index rounds
      is the whole number a1 p - a0 q. */
  lemma IndexCombination(x0: real, x1: real, p: real, q: real, u: real, a0: real, a1: real, k: real)
    requires x0 / Scale == u * p - a0 && x1 / Scale == u * q - a1 && k == a1 * p - a0 * q
    ensures (x0 * q - x1 * p) / Scale == k
  {
    FieldsCombine(x0, x1, p, q);
    IndexIdentity(u, p, q, a0, a1, x0 / Scale, x1 / Scale);
  }

  lemma CastIndex(nl: int, nl1: int, a0: int, a1: int, k: int)
    requires k == nl * a1 - nl1 * a0
    ensures k as real == a1 as real * nl as real - a0 as real * nl1 as real
  {
  }

  /** The offset of x in a grid of n zones per turn, counted from zone a. */
  lemma {:induction false} OffsetInTurns(x: real, w: real, n: int, a: int, g: real, u: real, p: real)
    requires w > 0.0 && w * n as real == 360.0
    requires a == (x / w).Floor && g == CellOffset(x, w)
    requires u == x / 360.0 && p == n as real
    ensures g == u * p - a as real
  {
    DivWidth(x, w, n);
  }

  lemma FieldsCombine(x0: real, x1: real, p: real, q: real)
    ensures (x0 * q - x1 * p) / Scale == x0 / Scale * q - x1 / Scale * p
  {
  }

  /** The turn fraction u cancels from the combination of the two offsets. */
  lemma IndexIdentity(u: real, p: real, q: real, a0: real, a1: real, g0: real, g1: real)
    requires g0 == u * p - a0 && g1 == u * q - a1
    ensures g0 * q - g1 * p == a1 * p - a0 * q
  {
    assert g0 * q == u * p * q - a0 * q;
    assert g1 * p == u * q * p - a1 * p;
  }

  /** A longitude cell point whose index agrees with the zone index a of lon
      modulo ni, and whose offset is that of lon, is lon moved by whole turns,
      so renormalising gives lon back. */
  lemma {:induction false} AirborneLonRecovered(lon: real, w: real, ni: int, m: int, a: int, raw: int)
    requires -180.0 <= lon < 180.0 && w > 0.0 && ni > 0 && w * ni as real == 360.0
    requires a == (lon / w).Floor && m % ni == a % ni
    requires raw as real / Scale == CellOffset(lon, w)
    ensures Renormalize(CellPoint(w, ni, m, raw)) == lon
  {
    var f := raw as real / Scale;
    var c := CprModInt(m, ni);
    var t := a / ni;
    IndexReduce(m, ni, a, t);
    GridPointOfOffset(lon, w, a, f);
    ShiftTurns(lon, w, ni, a, c, t, f);
    assert CellPoint(w, ni, m, raw) == lon + (-t) as real * 360.0;
    RenormalizeUnique(lon, -t);
  }

  /** cprModInt of an index congruent to a is a less t whole rounds of ni. */
  lemma {:induction false} IndexReduce(m: int, ni: int, a: int, t: int)
    requires ni > 0 && m % ni == a % ni && t == a / ni
    ensures CprModInt(m, ni) == a - t * ni
  {
    ModIntIsEuclidean(m, ni);
  }

  /** Moving the cell index down by t rounds of ni cells, which make a turn,
      moves the point down by t turns. */
  lemma {:induction false} ShiftTurns(x: real, w: real, ni: int, a: int, c: int, t: int, f: real)
    requires w * ni as real == 360.0 && GridPoint(w, a, f) == x && c == a - t * ni
    ensures GridPoint(w, c, f) == x + (-t) as real * 360.0
  {
    var y := a as real + f;
    var s := -t as real * ni as real;
    assert c as real + f == y + s;
    MulAdd(w, y, s);
    MulTurns(w, ni, -t);
  }

  lemma MulTurns(w: real, n: int, k: int)
    requires w * n as real == 360.0
    ensures w * (k as real * n as real) == k as real * 360.0
  {
  }

  /** The longitude index of an exactly encoded longitude agrees, modulo the
      zone number of the packet fflag selects, with that packet's zone index
      of the longitude. */
  lemma {:induction false} LonIndexAgrees(lat: real, lon: real, lon0: int, lon1: int, odd: bool,
                                          ni: int, w: real, a: int)
    requires lon0 as real / Scale == CellOffset(lon, ZoneWidth(lat, false, false))
    requires lon1 as real / Scale == CellOffset(lon, ZoneWidth(lat, true, false))
    requires ni == ZoneNumber(lat, odd) && w == ZoneWidth(lat, odd, false)
    requires a == (lon / w).Floor
    ensures LonIndex(lon0, lon1, ZoneCount(lat)) % ni == a % ni
  {
    var nl := ZoneCount(lat);
    var m := LonIndex(lon0, lon1, nl);
    if nl == 1 {
      assert ni == 1;
      ModUnique(m, 1, m, 0);
      ModUnique(a, 1, a, 0);
    } else {
      var w0 := ZoneWidth(lat, false, false);
      var w1 := ZoneWidth(lat, true, false);
      var nl1 := nl - 1;
      assert ZoneNumber(lat, false) == nl && ZoneNumber(lat, true) == nl1;
      ZoneWidthSpans(lat, false, false, w0, nl);
      ZoneWidthSpans(lat, true, false, w1, nl1);
      assert Span(false) == 360.0;
      assert w0 * nl as real == 360.0;
      assert w1 * nl1 as real == 360.0;
      var a0 := (lon / w0).Floor;
      var a1 := (lon / w1).Floor;
      assert lon0 as real / Scale == CellOffset(lon, w0);
      assert lon1 as real / Scale == CellOffset(lon, w1);
      LonIndexExact(lon, lon0, lon1, nl, nl1, w0, w1, a0, a1);
      ZoneIndicesAgree(m, nl, nl1, a0, a1, odd, ni, a);
    }
  }

  /** nl a1 - (nl - 1) a0 agrees with a0 modulo nl and with a1 modulo nl - 1. */
  lemma {:induction false} ZoneIndicesAgree(m: int, nl: int, nl1: int, a0: int, a1: int, odd: bool,
                                            ni: int, a: int)
    requires nl >= 2 && nl1 == nl - 1 && m == nl * a1 - nl1 * a0
    requires ni == (if odd then nl1 else nl) && a == (if odd then a1 else a0)
    ensures m % ni == a % ni
  {
    var d := a1 - a0;
    if odd {
      assert m == a1 + nl1 * d;
      ModAddMultiple(a1, nl1, d);
    } else {
      assert m == a0 + nl * d;
      ModAddMultiple(a0, nl, d);
    }
  }

  /** Given the exact even and odd encodings of a latitude, both latitude
      candidates of the global airborne decoder are that latitude. */
  lemma {:induction false} AirborneLatitudes(lat: real, lat0: int, lat1: int)
    requires InLatRange(lat)
    requires lat0 as real / Scale == CellOffset(lat, 360.0 / 60.0)
    requires lat1 as real / Scale == CellOffset(lat, 360.0 / 59.0)
    ensures Unwrap(CellPoint(360.0 / 60.0, 60, LatIndex(lat0, lat1), lat0)) == lat
    ensures Unwrap(CellPoint(360.0 / 59.0, 59, LatIndex(lat0, lat1), lat1)) == lat
  {
    var n0 := (lat / (360.0 / 60.0)).Floor;
    var n1 := (lat / (360.0 / 59.0)).Floor;
    LatZoneBounds(lat, n0, n1);
    var j := LatIndex(lat0, lat1);
    LatIndexExact(lat, lat0, lat1, n0, n1);
    var d := n1 - n0;
    assert j % 60 == n0 % 60 by {
      assert j == n0 + 60 * d;
      ModAddMultiple(n0, 60, d);
    }
    assert j % 59 == n1 % 59 by {
      assert j == n1 + 59 * d;
      ModAddMultiple(n1, 59, d);
    }
    AirborneLatRecovered(lat, 360.0 / 60.0, 60, j, n0, lat0);
    AirborneLatRecovered(lat, 360.0 / 59.0, 59, j, n1, lat1);
  }

  /** Encode, then decode: given the exact even and odd encodings of a
      position, decodeCPRairborne returns that position, whichever packet
      fflag selects. */
  lemma {:induction false} AirborneRecovers(lat: real, lon: real, lat0: int, lon0: int, lat1: int,
                                            lon1: int, odd: bool)
    requires InLatRange(lat) && -180.0 <= lon < 180.0
    requires lat0 as real / Scale == CellOffset(lat, 360.0 / 60.0)
    requires lat1 as real / Scale == CellOffset(lat, 360.0 / 59.0)
    requires lon0 as real / Scale == CellOffset(lon, ZoneWidth(lat, false, false))
    requires lon1 as real / Scale == CellOffset(lon, ZoneWidth(lat, true, false))
    ensures GlobalAirborne(lat0, lon0, lat1, lon1, odd) == Decoded(Position(lat, lon))
  {
    AirborneLatitudes(lat, lat0, lat1);
    AirborneSteps(lat0, lon0, lat1, lon1, odd, lat, lat);
    var nl := ZoneCount(lat);
    var ni := ZoneNumber(lat, odd);
    var m := LonIndex(lon0, lon1, nl);
    var w := ZoneWidth(lat, odd, false);
    GlobalLonSteps(lat, odd, false, lon0, lon1, nl, ni, m, w);
    ZoneWidthSpans(lat, odd, false, w, ni);
    var a := (lon / w).Floor;
    LonIndexAgrees(lat, lon, lon0, lon1, odd, ni, w, a);
    AirborneLonRecovered(lon, w, ni, m, a, if odd then lon1 else lon0);
  }
}
