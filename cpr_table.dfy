/** The latitude-zone table of Compact Position Reporting and the zone lookup
    cprNLFunction: how many longitude zones the CPR grid has at a given latitude. */
module CprTable {
  import opened CprArith

  /** The transition latitude, in degrees, at which the number of longitude zones
      drops below nz (nz = 2..59). The decoder computes it as
      degrees(acos(sqrt((1 - cos(pi/30)) / (1 - cos(2 pi/nz))))); here the values
      are given to eight decimals. They are looked up by halving the range of nz
      rather than held in a sequence or a flat match: for a symbolic nz the
      verifier then reasons over a few comparisons instead of 58 cases. */
  function ZoneBoundary(nz: int): real
    requires 2 <= nz <= 59
  {
    if nz < 31 then
      if nz < 16 then
        if nz < 9 then
          if nz < 5 then
            if nz < 3 then
              87.00000000
            else
              if nz < 4 then
                86.53536998
              else
                85.75541621
          else
            if nz < 7 then
              if nz < 6 then
                84.89166191
              else
                83.99173563
            else
              if nz < 8 then
                83.07199445
              else
                82.13956981
        else
          if nz < 12 then
            if nz < 10 then
              81.19801349
            else
              if nz < 11 then
                80.24923213
              else
                79.29428225
          else
            if nz < 14 then
              if nz < 13 then
                78.33374083
              else
                77.36789461
            else
              if nz < 15 then
                76.39684391
              else
                75.42056257
      else
        if nz < 23 then
          if nz < 19 then
            if nz < 17 then
              74.43893416
            else
              if nz < 18 then
                73.45177442
              else
                72.45884545
          else
            if nz < 21 then
              if nz < 20 then
                71.45986473
              else
                70.45451075
            else
              if nz < 22 then
                69.44242631
              else
                68.42322022
        else
          if nz < 27 then
            if nz < 25 then
              if nz < 24 then
                67.39646774
              else
                66.36171008
            else
              if nz < 26 then
                65.31845310
              else
                64.26616523
          else
            if nz < 29 then
              if nz < 28 then
                63.20427479
              else
                62.13216659
            else
              if nz < 30 then
                61.04917774
              else
                59.95459277
    else
      if nz < 45 then
        if nz < 38 then
          if nz < 34 then
            if nz < 32 then
              58.84763776
            else
              if nz < 33 then
                57.72747354
              else
                56.59318756
          else
            if nz < 36 then
              if nz < 35 then
                55.44378444
              else
                54.27817472
            else
              if nz < 37 then
                53.09516153
              else
                51.89342469
        else
          if nz < 41 then
            if nz < 39 then
              50.67150166
            else
              if nz < 40 then
                49.42776439
              else
                48.16039128
          else
            if nz < 43 then
              if nz < 42 then
                46.86733252
              else
                45.54626723
            else
              if nz < 44 then
                44.19454951
              else
                42.80914012
      else
        if nz < 52 then
          if nz < 48 then
            if nz < 46 then
              41.38651832
            else
              if nz < 47 then
                39.92256684
              else
                38.41241892
          else
            if nz < 50 then
              if nz < 49 then
                36.85025108
              else
                35.22899598
            else
              if nz < 51 then
                33.53993436
              else
                31.77209708
        else
          if nz < 56 then
            if nz < 54 then
              if nz < 53 then
                29.91135686
              else
                27.93898710
            else
              if nz < 55 then
                25.82924707
              else
                23.54504487
          else
            if nz < 58 then
              if nz < 57 then
                21.02939493
              else
                18.18626357
            else
              if nz < 59 then
                14.82817437
              else
                10.47047130
  }

  /** Entry i of the table NL[0..58]: NL[0] is the pole, NL[i] for i >= 1 the
      latitude up to which there are at least i + 1 longitude zones. */
  function NLEntry(i: int): real
    requires 0 <= i < 59
  {
    if i == 0 then 90.0 else ZoneBoundary(i + 1)
  }

  /** The table entries strictly decrease from the pole toward the equator. */
  ghost predicate TableDecreasing()
  {
    forall i, j :: 0 <= i < j < 59 ==> NLEntry(i) > NLEntry(j)
  }

  /** The table starts at the pole, has the special value 87 at index 1, stays
      above 10 degrees and strictly decreases toward the equator. */
  lemma NLTableShape()
    ensures NLEntry(0) == 90.0 && NLEntry(1) == 87.0
    ensures forall i :: 0 <= i < 59 ==> NLEntry(i) > 10.0
    ensures TableDecreasing()
  {
    assert forall i :: 0 <= i < 58 ==> NLEntry(i) > NLEntry(i + 1);
    forall i, j | 0 <= i < j < 59 ensures NLEntry(i) > NLEntry(j) {
      var k := i + 1;
      while k < j
        invariant i < k <= j
        invariant NLEntry(i) > NLEntry(k)
      {
        k := k + 1;
      }
    }
  }

  /** lat lies in the band of latitudes that have exactly n longitude zones:
      at or below NL[n - 1] and, unless n is the equatorial count 59, above NL[n]. */
  predicate InZoneBand(a: real, n: int)
  {
    1 <= n <= 59 && a <= NLEntry(n - 1) && (n == 59 || a > NLEntry(n))
  }

  /** cprNLFunction: the number of longitude zones at latitude lat, found by
      the special cases for the equator, for 87 degrees and for the polar caps,
      then by scanning the table from the equator toward the pole. Only the
      polar caps beyond 87 degrees have a single zone. */
  function ZoneCount(lat: real): (n: int)
    ensures 1 <= n <= 59
    ensures n == 1 <==> Abs(lat) > 87.0
  {
    var a := Abs(lat);
    if a == 0.0 then
      59
    else if a == 87.0 then
      2
    else if a > 87.0 then
      1
    else
      ScanZones(a, 58)
  }

  /** The table scan of cprNLFunction from index i down: one more than the
      index of the first entry at or above a. */
  function ScanZones(a: real, i: int): (n: int)
    requires 0 <= i < 59 && a <= 90.0
    ensures 1 <= n <= i + 1
    ensures 1 <= i && a <= 87.0 ==> 2 <= n
    decreases i
  {
    if a > NLEntry(i) then ScanZones(a, i - 1) else i + 1
  }

  /** The scan stops in the band of a: at or below the entry it stops at, and
      above every entry it passed. */
  lemma {:induction false} ScanZonesBand(a: real, i: int)
    requires 0 <= i < 59 && a <= 90.0
    ensures a <= NLEntry(ScanZones(a, i) - 1)
    ensures ScanZones(a, i) <= i ==> a > NLEntry(ScanZones(a, i))
    decreases i
  {
    var n := ScanZones(a, i);
    if a > NLEntry(i) {
      ScanZonesBand(a, i - 1);
      assert n == ScanZones(a, i - 1);
    } else {
      assert n == i + 1;
    }
  }

  /** Zone bands are ordered: a higher latitude never lies in a band with
      more zones. */
  lemma {:induction false} ZoneBandOrder(a1: real, n1: int, a2: real, n2: int)
    requires InZoneBand(a1, n1) && InZoneBand(a2, n2) && a1 <= a2
    ensures n1 >= n2
  {
    NLTableShape();
  }

  /** The zone bands do not overlap: a latitude within the table has exactly
      one zone count. */
  lemma {:induction false} ZoneBandUnique(a: real, n: int, m: int)
    requires InZoneBand(a, n) && InZoneBand(a, m)
    ensures n == m
  {
    ZoneBandOrder(a, n, a, m);
    ZoneBandOrder(a, m, a, n);
  }

  /** Inside the table's range the special cases of cprNLFunction agree with
      the scan: the zone count is the one whose band holds |lat|. */
  lemma {:induction false} ZoneCountIsBand(lat: real)
    requires Abs(lat) <= 90.0
    ensures InZoneBand(Abs(lat), ZoneCount(lat))
  {
    var a := Abs(lat);
    NLTableShape();
    if a != 0.0 && a < 87.0 {
      ScanZonesBand(a, 58);
    }
  }

  /** The converse of ZoneCountIsBand: a latitude whose |lat| lies in the band
      of n has n zones. */
  lemma {:induction false} ZoneCountOfBand(lat: real, n: int)
    requires Abs(lat) <= 90.0 && InZoneBand(Abs(lat), n)
    ensures ZoneCount(lat) == n
  {
    ZoneCountIsBand(lat);
    ZoneBandUnique(Abs(lat), ZoneCount(lat), n);
  }

  /** Fewer zones toward the poles: the count never grows with |lat|, and so
      is the same for lat and -lat. */
  lemma {:induction false} ZoneCountMonotone(lat1: real, lat2: real)
    requires Abs(lat1) <= Abs(lat2)
    ensures ZoneCount(lat1) >= ZoneCount(lat2)
  {
    var a1, a2 := Abs(lat1), Abs(lat2);
    var n1, n2 := ZoneCount(lat1), ZoneCount(lat2);
    if a2 <= 87.0 {
      ZoneCountIsBand(lat1);
      ZoneCountIsBand(lat2);
      ZoneBandOrder(a1, n1, a2, n2);
    }
  }

  /** cprNFunction: the number of longitude zones used for a packet, one
      fewer for an odd (fflag) packet and never fewer than one. */
  function ZoneNumber(lat: real, odd: bool): (n: int)
    ensures 1 <= n <= 59
    ensures !odd ==> n == ZoneCount(lat)
    ensures odd ==> n == if ZoneCount(lat) == 1 then 1 else ZoneCount(lat) - 1
  {
    var nl := ZoneCount(lat) - (if odd then 1 else 0);
    if nl < 1 then 1 else nl
  }

  /** The extent that CPR encodes: 90 degrees on the surface, 360 in the air. */
  function Span(surface: bool): (s: real)
    ensures surface ==> s == 90.0
    ensures !surface ==> s == 360.0
  {
    if surface then 90.0 else 360.0
  }

  /** cprDlonFunction: the width in degrees of a longitude zone, the span
      (90 on the surface, 360 airborne) divided among ZoneNumber zones. */
  function ZoneWidth(lat: real, odd: bool, surface: bool): (w: real)
    ensures w > 0.0
  {
    WidthOf(Span(surface), ZoneNumber(lat, odd))
  }

  /** A span divided into n equal zones: n zones of the result make up the
      span exactly. */
  function WidthOf(span: real, n: int): (w: real)
    requires span > 0.0 && n >= 1
    ensures w > 0.0 && w * n as real == span
  {
    span / n as real
  }
}
