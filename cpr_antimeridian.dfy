/** The relative decoder near the antimeridian. decodeCPRrelative moves a
    longitude beyond 180 down a turn and only then checks that it lies within
    half a zone of the reference, so it rejects positions just east of the
    antimeridian when the reference lies just west of it. In the mirror case,
    a position just west and a reference just east, nothing is wrapped: the
    position is accepted with a longitude below -180. RelativeChecked is
    the decoder with the check made on the point before the wrap, as the check
    means it: that point lies within half a zone of the reference, so its
    longitude check never fires (RelativeCheckedNoLongitudeError). */
module CprAntimeridian {
  import opened CprArith
  import opened CprTable
  import opened CprDecode
  import opened CprProperties

  /** decodeCPRrelative with the longitude check made before the wrap. */
  function RelativeChecked(reflat: real, reflon: real, cprlat: int, cprlon: int, odd: bool,
                           surface: bool): (r: Decoded)
    ensures r.Decoded? ==> InLatRange(r.pos.lat)
    ensures r.Decoded? ==> Abs(r.pos.lat - reflat) <= LatCell(odd, surface) / 2.0
    ensures r.Decoded? ==>
      var w := ZoneWidth(r.pos.lat, odd, surface);
      Abs(r.pos.lon - reflon) <= w / 2.0 || Abs(r.pos.lon + 360.0 - reflon) <= w / 2.0
  {
    var rlat := RelativeLat(reflat, cprlat, odd, surface);
    if !InLatRange(rlat) || Abs(rlat - reflat) > LatCell(odd, surface) / 2.0 then
      Failed(LatitudeError)
    else
      var g := NearestLon(reflon, rlat, cprlon, odd, surface);
      if Abs(g - reflon) > ZoneWidth(rlat, odd, surface) / 2.0 then
        Failed(LongitudeError)
      else
        Decoded(Position(rlat, if g > 180.0 then g - 360.0 else g))
  }

  /** The corrected decoder never reports a longitude error: the nearest
      point it checks lies within half a zone of the reference by its choice
      of zone index, so only the latitude check can make it give up. */
  lemma {:induction false} RelativeCheckedNoLongitudeError(reflat: real, reflon: real, cprlat: int,
                                                           cprlon: int, odd: bool, surface: bool)
    ensures RelativeChecked(reflat, reflon, cprlat, cprlon, odd, surface) != Failed(LongitudeError)
  {
    var rlat := RelativeLat(reflat, cprlat, odd, surface);
    var w := ZoneWidth(rlat, odd, surface);
    var fo := cprlon as real / Scale;
    var g := NearestLon(reflon, rlat, cprlon, odd, surface);
    assert g == GridPoint(w, LocalIndex(reflon, w, fo), fo);
    LocalPointNear(reflon, w, fo, g);
  }

  /** Where no wrap happens the corrected decoder is decodeCPRrelative. */
  lemma {:induction false} RelativeCheckedAgrees(reflat: real, reflon: real, cprlat: int, cprlon: int,
                                                 odd: bool, surface: bool)
    requires NearestLon(reflon, RelativeLat(reflat, cprlat, odd, surface), cprlon, odd, surface) <= 180.0
    ensures RelativeChecked(reflat, reflon, cprlat, cprlon, odd, surface)
      == Relative(reflat, reflon, cprlat, cprlon, odd, surface)
  {
    var rlat := RelativeLat(reflat, cprlat, odd, surface);
    RelativeSteps(reflat, reflon, cprlat, cprlon, odd, surface, rlat);
  }

  /** Encode, then decode, with the corrected check: any position whose
      fields are given, within half a cell of the reference in latitude and
      within half a zone of it in longitude measured around the globe (k whole
      turns), is recovered, its longitude up to whole turns. */
  lemma {:induction false} RelativeCheckedRecovers(reflat: real, reflon: real, lat: real, lon: real,
                                                   k: int, cprlat: int, cprlon: int, odd: bool,
                                                   surface: bool)
    requires InLatRange(lat)
    requires cprlat as real / Scale == CellOffset(lat, LatCell(odd, surface))
    requires cprlon as real / Scale == CellOffset(lon, ZoneWidth(lat, odd, surface))
    requires -LatCell(odd, surface) / 2.0 < lat - reflat <= LatCell(odd, surface) / 2.0
    requires -ZoneWidth(lat, odd, surface) / 2.0 < lon + k as real * 360.0 - reflon
               <= ZoneWidth(lat, odd, surface) / 2.0
    ensures var r := RelativeChecked(reflat, reflon, cprlat, cprlon, odd, surface);
      r.Decoded? && r.pos.lat == lat && IsWhole((r.pos.lon - lon) / 360.0)
  {
    RelativeLatRecovered(reflat, lat, cprlat, odd, surface);
    NearestLonRecovered(reflon, lat, lon, k, cprlon, odd, surface);
    var x := lon + k as real * 360.0;
    var r := RelativeChecked(reflat, reflon, cprlat, cprlon, odd, surface);
    var y := (r.pos.lon - lon) / 360.0;
    if x > 180.0 {
      assert r.pos.lon == x - 360.0;
      WholeTurns(y, k - 1);
    } else {
      assert r.pos.lon == x;
      WholeTurns(y, k);
    }
  }

  lemma WholeTurns(y: real, k: int)
    requires y == k as real
    ensures IsWhole(y)
  {
  }

  /** The counterexample: an airborne even packet with fields 0 and 65600,
      against the reference (0, 179.9). Its position (0, lon) with lon about
      -179.997 encodes to those fields and lies about 0.103 degrees from the
      reference across the antimeridian, within half a zone; yet
      decodeCPRrelative returns -1, while the corrected decoder returns it. */
  lemma RelativeRejectsAcrossAntimeridian()
    ensures var w := ZoneWidth(0.0, false, false);
      var lon := w * (29.0 + 65600.0 / Scale) - 360.0;
      CellOffset(0.0, LatCell(false, false)) == 0.0 / Scale
      && CellOffset(lon, w) == 65600.0 / Scale
      && -w / 2.0 < lon + 360.0 - 179.9 <= w / 2.0
      && Relative(0.0, 179.9, 0, 65600, false, false) == Failed(LongitudeError)
      && RelativeChecked(0.0, 179.9, 0, 65600, false, false) == Decoded(Position(0.0, lon))
  {
    var w := ZoneWidth(0.0, false, false);
    assert ZoneCount(0.0) == 59;
    assert w == 360.0 / 59.0;
    var fo := 65600.0 / Scale;
    var lon := w * (29.0 + fo) - 360.0;
    var d := LatCell(false, false);
    LocalIndexUnique(0.0, d, 0.0, 0);
    assert RelativeLat(0.0, 0, false, false) == 0.0;
    LocalIndexUnique(179.9, w, fo, 29);
    assert NearestLon(179.9, 0.0, 65600, false, false) == lon + 360.0;
    OffsetOfGridPoint(w, -30, fo);
    assert GridPoint(w, -30, fo) == lon;
    OffsetOfGridPoint(d, 0, 0.0);
    RelativeSteps(0.0, 179.9, 0, 65600, false, false, 0.0);
  }

  /** The mirror case: an airborne even packet with fields 0 and 65472,
      against the reference (0, -179.9). The nearest point, about -180.003,
      is not wrapped, since only longitudes beyond 180 are moved; it lies
      about 0.103 degrees from the reference, so decodeCPRrelative accepts it
      with a longitude below -180, and so does the corrected decoder. The
      position it stands for, about 179.997, is one turn away. */
  lemma RelativeBelowAntimeridian()
    ensures var w := ZoneWidth(0.0, false, false);
      var lon := w * (-30.0 + 65472.0 / Scale);
      lon < -180.0
      && CellOffset(lon + 360.0, w) == 65472.0 / Scale
      && Relative(0.0, -179.9, 0, 65472, false, false) == Decoded(Position(0.0, lon))
      && RelativeChecked(0.0, -179.9, 0, 65472, false, false) == Decoded(Position(0.0, lon))
  {
    var w := ZoneWidth(0.0, false, false);
    assert ZoneCount(0.0) == 59;
    assert w == 360.0 / 59.0;
    var fo := 65472.0 / Scale;
    var lon := w * (-30.0 + fo);
    var d := LatCell(false, false);
    LocalIndexUnique(0.0, d, 0.0, 0);
    assert RelativeLat(0.0, 0, false, false) == 0.0;
    LocalIndexUnique(-179.9, w, fo, -30);
    assert NearestLon(-179.9, 0.0, 65472, false, false) == lon;
    OffsetOfGridPoint(w, 29, fo);
    assert GridPoint(w, 29, fo) == lon + 360.0;
    RelativeSteps(0.0, -179.9, 0, 65472, false, false, 0.0);
  }
}
