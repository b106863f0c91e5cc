/** The CPR class: the latitude-zone table it builds when constructed and its
    decoders, which write a decoded position into the first slot of two
    caller-supplied arrays and return a status code. */
module CprClass {
  import opened CprArith
  import opened CprTable
  import opened CprDecode

  class Cpr {
    /** The transition-latitude table NL[0..58]. */
    const nl: array<real>

    ghost predicate Valid()
      reads nl
    {
      nl.Length == 59 && forall i :: 0 <= i < 59 ==> nl[i] == NLEntry(i)
    }

    /** Fills NL[0] with the pole and NL[1..58] with the transition latitudes
        for 2..59 zones. */
    constructor ()
      ensures Valid() && fresh(nl)
    {
      var t := new real[59];
      t[0] := 90.0;
      var i := 2;
      while i < 60
        invariant 2 <= i <= 60
        invariant t[0] == 90.0
        invariant forall k :: 1 <= k < i - 1 ==> t[k] == ZoneBoundary(k + 1)
      {
        t[i - 1] := ZoneBoundary(i);
        i := i + 1;
      }
      nl := t;
    }

    /** cprNLFunction: the special cases, then a scan of the table from the
        equator toward the pole. */
    method NLFunction(lat: real) returns (n: int)
      requires Valid()
      ensures n == ZoneCount(lat)
    {
      var a := Abs(lat);
      if a == 0.0 {
        return 59;
      } else if a == 87.0 {
        return 2;
      } else if a > 87.0 {
        return 1;
      }
      var i := 58;
      while a > nl[i]
        invariant 1 <= i <= 58
        invariant i < 58 ==> a > nl[i + 1]
        decreases i
      {
        i := i - 1;
      }
      n := i + 1;
      assert InZoneBand(a, n);
      ZoneCountIsBand(lat);
      ZoneBandUnique(a, n, ZoneCount(lat));
    }

    /** cprNFunction */
    method NFunction(lat: real, fflag: bool) returns (n: int)
      requires Valid()
      ensures n == ZoneNumber(lat, fflag)
    {
      n := NLFunction(lat);
      n := n - (if fflag then 1 else 0);
      if n < 1 {
        n := 1;
      }
    }

    /** cprDlonFunction */
    method DlonFunction(lat: real, fflag: bool, surface: bool) returns (w: real)
      requires Valid()
      ensures w == ZoneWidth(lat, fflag, surface)
    {
      var n := NFunction(lat, fflag);
      w := (if surface then 90.0 else 360.0) / n as real;
    }

    /** decodeCPRairborne */
    method DecodeAirborne(evenLat: int, evenLon: int, oddLat: int, oddLon: int, fflag: bool,
                          outLat: array<real>, outLon: array<real>) returns (status: int)
      requires Valid()
      requires outLat.Length >= 1 && outLon.Length >= 1
      requires outLat != nl && outLon != nl
      modifies outLat, outLon
      ensures var r := GlobalAirborne(evenLat, evenLon, oddLat, oddLon, fflag);
        status == Status(r)
        && (r.Decoded? ==> outLon[0] == r.pos.lon && (outLat != outLon ==> outLat[0] == r.pos.lat))
      ensures status != 0 ==> unchanged(outLat) && unchanged(outLon)
      ensures forall i :: 1 <= i < outLat.Length ==> outLat[i] == old(outLat[i])
      ensures forall i :: 1 <= i < outLon.Length ==> outLon[i] == old(outLon[i])
    {
      var j := LatIndex(evenLat, oddLat);
      var rlat0 := CellPoint(360.0 / 60.0, 60, j, evenLat);
      var rlat1 := CellPoint(360.0 / 59.0, 59, j, oddLat);
      if rlat0 >= 270.0 {
        rlat0 := rlat0 - 360.0;
      }
      if rlat1 >= 270.0 {
        rlat1 := rlat1 - 360.0;
      }
      AirborneSteps(evenLat, evenLon, oddLat, oddLon, fflag, rlat0, rlat1);
      if rlat0 < -90.0 || rlat0 > 90.0 || rlat1 < -90.0 || rlat1 > 90.0 {
        return -2;
      }
      var nl0 := NLFunction(rlat0);
      var nl1 := NLFunction(rlat1);
      if nl0 != nl1 {
        return -1;
      }

      var rlat, rlon;
      if fflag {
        var ni := NFunction(rlat1, true);
        var nlr := NLFunction(rlat1);
        var m := LonIndex(evenLon, oddLon, nlr);
        var dlon := DlonFunction(rlat1, true, false);
        rlon := CellPoint(dlon, ni, m, oddLon);
        rlat := rlat1;
        GlobalLonSteps(rlat, fflag, false, evenLon, oddLon, nlr, ni, m, dlon);
      } else {
        var ni := NFunction(rlat0, false);
        var nlr := NLFunction(rlat0);
        var m := LonIndex(evenLon, oddLon, nlr);
        var dlon := DlonFunction(rlat0, false, false);
        rlon := CellPoint(dlon, ni, m, evenLon);
        rlat := rlat0;
        GlobalLonSteps(rlat, fflag, false, evenLon, oddLon, nlr, ni, m, dlon);
      }
      rlon := Renormalize(rlon);

      outLat[0] := rlat;
      outLon[0] := rlon;
      return 0;
    }

    /** decodeCPRsurface */
    method DecodeSurface(reflat: real, reflon: real, evenLat: int, evenLon: int,
                         oddLat: int, oddLon: int, fflag: bool,
                         outLat: array<real>, outLon: array<real>) returns (status: int)
      requires Valid()
      requires outLat.Length >= 1 && outLon.Length >= 1
      requires outLat != nl && outLon != nl
      modifies outLat, outLon
      ensures var r := GlobalSurface(reflat, reflon, evenLat, evenLon, oddLat, oddLon, fflag);
        status == Status(r)
        && (r.Decoded? ==> outLon[0] == r.pos.lon && (outLat != outLon ==> outLat[0] == r.pos.lat))
      ensures status != 0 ==> unchanged(outLat) && unchanged(outLon)
      ensures forall i :: 1 <= i < outLat.Length ==> outLat[i] == old(outLat[i])
      ensures forall i :: 1 <= i < outLon.Length ==> outLon[i] == old(outLon[i])
    {
      var j := LatIndex(evenLat, oddLat);
      var rlat0 := CellPoint(90.0 / 60.0, 60, j, evenLat);
      var rlat1 := CellPoint(90.0 / 59.0, 59, j, oddLat);
      // The reference latitude picks the hemisphere; a candidate of 0 may
      // also stand for either pole.
      rlat0 := SnapLat(rlat0, reflat);
      rlat1 := SnapLat(rlat1, reflat);
      SurfaceSteps(reflat, reflon, evenLat, evenLon, oddLat, oddLon, fflag, rlat0, rlat1);

      if rlat0 < -90.0 || rlat0 > 90.0 || rlat1 < -90.0 || rlat1 > 90.0 {
        return -2;
      }
      var nl0 := NLFunction(rlat0);
      var nl1 := NLFunction(rlat1);
      if nl0 != nl1 {
        return -1;
      }

      var rlat, rlon;
      if fflag {
        var ni := NFunction(rlat1, true);
        var nlr := NLFunction(rlat1);
        var m := LonIndex(evenLon, oddLon, nlr);
        var dlon := DlonFunction(rlat1, true, true);
        rlon := CellPoint(dlon, ni, m, oddLon);
        rlat := rlat1;
        GlobalLonSteps(rlat, fflag, true, evenLon, oddLon, nlr, ni, m, dlon);
      } else {
        var ni := NFunction(rlat0, false);
        var nlr := NLFunction(rlat0);
        var m := LonIndex(evenLon, oddLon, nlr);
        var dlon := DlonFunction(rlat0, false, true);
        rlon := CellPoint(dlon, ni, m, evenLon);
        rlat := rlat0;
        GlobalLonSteps(rlat, fflag, true, evenLon, oddLon, nlr, ni, m, dlon);
      }

      // The quadrant nearest the reference longitude, then back into range.
      rlon := QuadrantShift(rlon, reflon);
      rlon := Renormalize(rlon);

      outLat[0] := rlat;
      outLon[0] := rlon;
      return 0;
    }

    /** decodeCPRrelative */
    method DecodeRelative(reflat: real, reflon: real, cprlat: int, cprlon: int,
                          fflag: bool, surface: bool,
                          outLat: array<real>, outLon: array<real>) returns (status: int)
      requires Valid()
      requires outLat.Length >= 1 && outLon.Length >= 1
      requires outLat != nl && outLon != nl
      modifies outLat, outLon
      ensures var r := Relative(reflat, reflon, cprlat, cprlon, fflag, surface);
        status == Status(r)
        && (r.Decoded? ==> outLon[0] == r.pos.lon && (outLat != outLon ==> outLat[0] == r.pos.lat))
      ensures status != 0 ==> unchanged(outLat) && unchanged(outLon)
      ensures forall i :: 1 <= i < outLat.Length ==> outLat[i] == old(outLat[i])
      ensures forall i :: 1 <= i < outLon.Length ==> outLon[i] == old(outLon[i])
    {
      var fracLat := cprlat as real / 131072.0;
      var fracLon := cprlon as real / 131072.0;
      var airDlat := (if surface then 90.0 else 360.0) / (if fflag then 59.0 else 60.0);

      var j := LocalIndex(reflat, airDlat, fracLat);
      var rlat := GridPoint(airDlat, j, fracLat);
      if rlat >= 270.0 {
        rlat := rlat - 360.0;
      }
      assert rlat == RelativeLat(reflat, cprlat, fflag, surface);
      RelativeSteps(reflat, reflon, cprlat, cprlon, fflag, surface, rlat);
      if rlat < -90.0 || rlat > 90.0 {
        return -1;
      }
      if Abs(rlat - reflat) > airDlat / 2.0 {
        return -1;
      }

      var airDlon := DlonFunction(rlat, fflag, surface);
      var m := LocalIndex(reflon, airDlon, fracLon);
      var rlon := GridPoint(airDlon, m, fracLon);
      if rlon > 180.0 {
        rlon := rlon - 360.0;
      }
      assert rlon == RelativeLon(reflon, rlat, cprlon, fflag, surface);
      if Abs(rlon - reflon) > airDlon / 2.0 {
        return -1;
      }

      outLat[0] := rlat;
      outLon[0] := rlon;
      return 0;
    }
  }
}
