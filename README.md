# CPR position decoding in Dafny

This project models the Compact Position Reporting (CPR) decoder of the
`CPR` class (`src/CPR.java`). CPR is the position encoding that ADS-B
messages use, defined in RTCA DO-260B, Appendix A, section A.1.7. A CPR
message does not carry latitude and longitude. It carries two 17-bit fields:
how far through its latitude cell the position lies, and how far through its
longitude zone. The receiver recovers the position in one of two ways:

- **global decoding** combines an even and an odd message. There is one
  decoder on the 360-degree airborne grid and one on the 90-degree surface
  grid. The surface decoder also takes a reference position to choose the
  hemisphere and the longitude quadrant.
- **local (relative) decoding** uses one message and a reference position
  less than half a cell away.

The number of longitude zones depends on the latitude: 59 at the equator,
falling to 1 beyond 87 degrees. A table of 59 transition latitudes (`NL`)
gives the bands.

Modules:

- `CprArith` (`cpr_arith.dfy`) holds the always-positive modulo operations
  `cprModInt` and `cprModDouble`. It also holds the grid arithmetic the
  decoders share: the offset of a point in its cell, the renormalisation of a
  longitude into [-180, 180), and the quadrant step.
- `CprTable` (`cpr_table.dfy`) holds the transition-latitude table and the
  zone lookup `cprNLFunction`. It also holds `cprNFunction` and
  `cprDlonFunction`.
- `CprDecode` (`cpr_decode.dfy`) holds the three decoders as functions of
  their inputs. Each returns `Decoded(position)` or `Failed(reason)`, and
  `Status` maps that to the Java return code (0, -1, -2).
- `CprClass` (`cpr_class.dfy`) holds the class `Cpr`. Its constructor fills the `NL`
  array in a loop. `NLFunction` scans that array in a `while` loop.
  `DecodeAirborne`, `DecodeSurface` and `DecodeRelative` compute step by
  step and write the result into `out[0]` of two caller-supplied arrays,
  behind the status code. Each method is proved against the matching
  function of `CprDecode`.
- `CprProperties` (`cpr_properties.dfy`) holds what the decoders guarantee:
  - decode then encode gives back the fields, for all three decoders;
  - encode then decode gives back the position, for the airborne global
    decoder and for the relative decoder;
  - the surface decoder never reports bad data for 17-bit fields;
  - for a reference latitude in [-90, 90], the relative decoder's latitude
    never fails its distance check.
- `CprAntimeridian` (`cpr_antimeridian.dfy`) holds the relative decoder's
  longitude check near the antimeridian (see Findings).
- `CprVectors` (`cpr_vectors.dfy`) holds the test vectors that
  `src/CPR.java` carries. Each lemma meets a vector's expected result within
  the 1e-6 degrees its tests allow. Where the tests move the reference
  around, the lemma covers the whole range of references they sample.

Java `double` arithmetic is modelled over exact `real`s, and `Math.floor`
is `.Floor`. Java's truncating `%` on `int` is written out as `JavaRem`.
`Math.IEEEremainder` is modelled with the quotient rounded to the nearest
integer, with halves rounded up. `AnyTieRule` shows that `cprModDouble`'s
result is the same for any nearest quotient, so rounding halves to even, as
IEEE does, gives the same result.

The table entries are the latitudes the constructor computes, written to
eight decimals. They are the ICAO transition latitudes.

## Model

| member | source | states |
|---|---|---|
| CprArith.JavaRem | src/CPR.java:78 | Java's int `%`: the remainder is smaller than the divisor in magnitude and is zero or has the sign of the dividend |
| CprArith.JavaRemCongruent | src/CPR.java:78 | `a` minus Java's remainder is a multiple of `b` |
| CprArith.CprModInt | src/CPR.java:77-85 | cprModInt returns a value in [0, b) |
| CprArith.ModIntIsEuclidean | src/CPR.java:77-85 | cprModInt equals the Euclidean `a % b`, the one value in [0, b) congruent to `a` modulo `b` |
| CprArith.ModUnique | src/CPR.java:77-85 | division with a remainder in [0, b) is unique, in both quotient and remainder |
| CprArith.IeeeRemainder | src/CPR.java:92 | Math.IEEEremainder leaves a remainder in [-b/2, b/2) |
| CprArith.AnyTieRule | src/CPR.java:92-96 | cprModDouble's corrected remainder is the same for every quotient within half of a / b, so for either tie rule of Math.IEEEremainder |
| CprArith.CprModReal | src/CPR.java:87-99 | cprModDouble with b > 0 returns a value in [0, b), and that value is `a - floor(a/b)*b`, so it is congruent to `a` modulo `b` |
| CprArith.OffsetOfGridPoint | src/CPR.java:128-129 | a point built from cell index k and fraction f in [0, 1) lies at offset f in its cell, so the decoders' candidates encode back to their field |
| CprArith.GridPointOfOffset | src/CPR.java:128-129 | every point is the grid point at its own cell index and offset |
| CprArith.OffsetShift | src/CPR.java:131-137 | moving a point by whole cells keeps its offset |
| CprArith.Renormalize | src/CPR.java:166 | the renormalised longitude lies in [-180, 180) and differs from the input by whole turns |
| CprArith.RenormalizeUnique | src/CPR.java:166 | a longitude in [-180, 180), moved by any whole number of turns, renormalises back to itself |
| CprArith.RenormalizeShift | src/CPR.java:166 | renormalisation does not change when the input is moved by whole turns |
| CprArith.QuadrantShift | src/CPR.java:273 | the surface quadrant step moves the longitude by whole quarter turns into (reflon - 45, reflon + 45] |
| CprArith.QuadrantShiftNearest | src/CPR.java:264-273 | no other quarter-turn copy of the longitude lies nearer the reference |
| CprTable.NLTableShape | src/CPR.java:44-52 | the table starts at 90 and has 87 at index 1; every entry is above 10; entries strictly decrease toward the equator |
| CprTable.ZoneCount | src/CPR.java:54-72 | cprNLFunction returns 1..59, and returns 1 exactly when abs(lat) > 87 |
| CprTable.ScanZones | src/CPR.java:67-71 | the scan from index i returns 1..i+1, and at least 2 below 87 degrees |
| CprTable.ScanZonesBand | src/CPR.java:67-71 | the scan stops at the first entry at or above abs(lat); every entry it passed lies below abs(lat) |
| CprTable.ZoneBandOrder | src/CPR.java:54-72 | a higher latitude never lies in a band with more zones |
| CprTable.ZoneBandUnique | src/CPR.java:54-72 | the bands do not overlap |
| CprTable.ZoneCountIsBand | src/CPR.java:54-72 | for abs(lat) <= 90, the special cases and the scan return the band holding abs(lat): lat <= NL[n-1], and n = 59 or lat > NL[n] |
| CprTable.ZoneCountOfBand | src/CPR.java:54-72 | conversely, a latitude in the band of n has exactly n zones |
| CprTable.ZoneCountMonotone | src/CPR.java:54-72 | the zone count never grows with abs(lat), so it is the same for lat and -lat |
| CprTable.ZoneNumber | src/CPR.java:101-109 | cprNFunction is cprNLFunction for even frames, one less for odd frames, and never below 1 |
| CprTable.Span | src/CPR.java:112 | the span is 90 degrees on the surface and 360 in the air |
| CprTable.ZoneWidth | src/CPR.java:111-113 | cprDlonFunction is strictly positive |
| CprTable.WidthOf | src/CPR.java:111-113 | the zones a span is divided into make up the span exactly |
| CprDecode.Status | src/CPR.java:115-337 | the return code is 0 exactly on success, -2 exactly for bad data, and -1 for every other failure |
| CprDecode.CellPointEncodes | src/CPR.java:127-129 | a latitude candidate from a 17-bit field lies in the first n cells and encodes back to the field |
| CprDecode.SnapLat | src/CPR.java:218-236 | the hemisphere snap turns a zero candidate into -90, 0 or 90 and any other candidate into itself or itself minus 90 |
| CprDecode.SnapLatNearest | src/CPR.java:218-236 | the snap picks whichever of those solutions lies nearest the reference latitude |
| CprDecode.GlobalAirborne | src/CPR.java:115-172 | decodeCPRairborne: a decoded latitude lies in [-90, 90] and a decoded longitude in [-180, 180) |
| CprDecode.GlobalSurface | src/CPR.java:174-282 | decodeCPRsurface: a decoded latitude lies in [-90, 90] and a decoded longitude in [-180, 180) |
| CprDecode.LocalIndex | src/CPR.java:297-298 | the relative decoder's cell index puts the received offset less than half a cell below the reference or at most half a cell above it, in cells |
| CprDecode.LocalIndexNear | src/CPR.java:297-300 | the same in degrees |
| CprDecode.LocalIndexUnique | src/CPR.java:297-298 | no other cell index has that property |
| CprDecode.LatCell | src/CPR.java:294 | the latitude cell of the relative decoder is positive |
| CprDecode.Relative | src/CPR.java:284-337 | decodeCPRrelative: a decoded latitude lies in [-90, 90] and within half a latitude cell of the reference; a decoded longitude lies within half a zone of it |
| CprProperties.UnwrapKeepsOffset | src/CPR.java:131-137 | the 270-degree unwrap keeps a candidate's offset in its cell |
| CprProperties.RenormalizeKeepsOffset | src/CPR.java:166 | renormalisation keeps a longitude's offset in any zone grid that divides the turn |
| CprProperties.ZoneWidthSpans | src/CPR.java:111-113 | the zone width times the zone count is the span |
| CprProperties.SnapKeepsOffset | src/CPR.java:218-236 | the hemisphere snap keeps a candidate's offset on the surface latitude grid |
| CprProperties.QuadrantKeepsOffset | src/CPR.java:273 | the quadrant step keeps a longitude's offset on the surface zone grid |
| CprProperties.AirborneReencodes | src/CPR.java:115-172 | a position decodeCPRairborne returns encodes back, on the grids of the fflag packet, to that packet's latitude and longitude fields |
| CprProperties.SurfaceReencodes | src/CPR.java:174-282 | a position decodeCPRsurface returns encodes back, on the surface grids of the fflag packet, to that packet's fields |
| CprProperties.SurfaceNoBadData | src/CPR.java:186-242 | decodeCPRsurface never returns -2 for 17-bit fields |
| CprProperties.RelativeLatNear | src/CPR.java:294-314 | for a reference latitude in [-90, 90], the relative latitude lies within half a cell of it, so only the range check can reject it |
| CprProperties.RelativeReencodes | src/CPR.java:284-337 | a position decodeCPRrelative returns encodes back to the fields it was given |
| CprProperties.RelativeLatRecovered | src/CPR.java:294-305 | the relative latitude of an encoded latitude within half a cell of the reference is that latitude |
| CprProperties.NearestLonRecovered | src/CPR.java:317-322 | the relative longitude before the wrap is the encoded longitude, moved by the whole turns that bring it within half a zone of the reference |
| CprProperties.RelativeRecovers | src/CPR.java:284-337 | encode then decode: a position in [-90, 90] x [-180, 180] within half a cell of the reference in latitude and half a zone in longitude, whose fields are its exact offsets, is decoded exactly |
| CprProperties.AirborneLatitudes | src/CPR.java:127-137 | from the even and odd fields of one latitude, both unwrapped candidates equal that latitude |
| CprProperties.LonIndexExact | src/CPR.java:153-160 | for the fields of one longitude, the longitude index m is an exact integer combination of the two zone indices |
| CprProperties.AirborneRecovers | src/CPR.java:115-172 | encode then decode: the even and odd fields of any position in [-90, 90] x [-180, 180) decode, with either fflag, to exactly that position |
| CprAntimeridian.RelativeChecked | src/CPR.java:317-336 | the relative decoder with the longitude check made before the wrap: it still returns a latitude in range and near the reference, and a longitude within half a zone of the reference once whole turns are taken into account |
| CprAntimeridian.RelativeCheckedNoLongitudeError | src/CPR.java:319-331 | the corrected decoder never fails its longitude check: the nearest point lies within half a zone of the reference by construction, so only the latitude check can make it give up |
| CprAntimeridian.RelativeCheckedAgrees | src/CPR.java:322-333 | where no wrap happens, the corrected decoder returns what decodeCPRrelative returns |
| CprAntimeridian.RelativeCheckedRecovers | src/CPR.java:284-337 | encode then decode with the corrected check: a position within half a cell of the reference, measured around the globe, whose fields are its exact offsets, is recovered, its longitude up to whole turns |
| CprAntimeridian.RelativeRejectsAcrossAntimeridian | src/CPR.java:322-333 | a position that encodes to (0, 65600) and lies 0.103 degrees from the reference (0, 179.9) across the antimeridian is rejected by decodeCPRrelative and recovered by the corrected decoder |
| CprAntimeridian.RelativeBelowAntimeridian | src/CPR.java:322-333 | the mirror case: fields (0, 65472) against the reference (0, -179.9) are accepted by decodeCPRrelative, and by the corrected decoder, with the longitude w*(-30 + 65472/2^17), below -180 and one turn from the position 179.997 that encodes to them |
| CprVectors.AirborneVector | src/CPR.java:369-370 | the two airborne test pairs decode, with either fflag, to the exact positions their fields give: zone count 37, zone index 0 |
| CprVectors.AirborneFirstVector | src/CPR.java:369 | the first airborne test vector meets its expected even and odd positions within 1e-6 |
| CprVectors.AirborneSecondVector | src/CPR.java:370 | the second airborne test vector meets its expected even and odd positions within 1e-6 |
| CprVectors.QuadrantLon | src/CPR.java:273-276 | for a reference within 45 degrees of q quarter turns, the surface longitude moves by q quarter turns, and by -2 quarter turns when q is 2 |
| CprVectors.SurfaceNorthVector | src/CPR.java:412-428 | the Cambridge surface pair, against any reference at or above 8 degrees in any quadrant, decodes to the apron latitude and the apron longitude moved by that quadrant |
| CprVectors.SurfaceSouthVector | src/CPR.java:429-431 | against any reference at or below 7 degrees in latitude and within 45 degrees of q quarter turns in longitude (q = -2..2), the same pair decodes to the southern solution, whose latitude has 47 zones, its longitude moved by that quadrant |
| CprVectors.SurfaceVectors | src/CPR.java:412-431 | every Cambridge row of the surface test meets its expected even and odd positions within 1e-6 |
| CprVectors.SurfaceZeroVector | src/CPR.java:433-436 | all-zero fields decode to the pole or the equator nearest the reference latitude, at longitude -180 |
| CprVectors.RelativeVector | src/CPR.java:284-337 | a relative test vector is an instance of RelativeRecovers |
| CprVectors.RelativeAirborneVectors | src/CPR.java:471-497 | the four airborne relative vectors meet their expected positions within 1e-6 for every reference in the box the test samples |
| CprVectors.RelativeSurfaceVectors | src/CPR.java:504-520 | the two surface relative vectors meet their expected positions within 1e-6 for every reference in the box the test samples |
| CprClass.Cpr.constructor | src/CPR.java:44-52 | the constructor's loop fills NL[0] with 90 and NL[i-1] with the transition latitude for i zones, i = 2..59 |
| CprClass.Cpr.NLFunction | src/CPR.java:54-72 | the table scan stays in bounds and returns ZoneCount(lat) |
| CprClass.Cpr.NFunction | src/CPR.java:101-109 | returns ZoneNumber(lat, fflag) |
| CprClass.Cpr.DlonFunction | src/CPR.java:111-113 | returns ZoneWidth(lat, fflag, surface) |
| CprClass.Cpr.DecodeAirborne | src/CPR.java:115-172 | the status is Status(GlobalAirborne(...)); on success out_lon[0] and out_lat[0] hold the decoded position; on failure neither array changes; no other slot changes |
| CprClass.Cpr.DecodeSurface | src/CPR.java:174-282 | the same, against GlobalSurface |
| CprClass.Cpr.DecodeRelative | src/CPR.java:284-337 | the same, against Relative |

## Left out

- Table construction: the constructor computes the transition latitudes with
  `Math.acos`, `Math.sqrt` and `Math.cos`. The model takes them as constants
  written to eight decimals (`CprTable.ZoneBoundary`), and the constructor's
  loop copies them into the array.
- Floating point: all arithmetic is exact over `real`. Rounding of `double`
  operations is not modelled, so neither are results that differ only by
  rounding, for example near a cell or zone boundary.
- `(int)` casts of `Math.floor` results: their values are taken as exact
  integers. Overflow of the cast is out of reach for 17-bit fields and
  latitudes and longitudes of normal size.
- `cprModDouble` with `b == 0` returns NaN. Every caller passes a positive
  cell width, so the model takes b > 0 (`CprArith.CprModReal`).
- CprArith.IeeeRemainder: rounds halves up, while IEEE rounds them to even.
  Only a remainder of exactly b/2 differs. `CprArith.AnyTieRule` proves that
  cprModDouble's final result is the same either way.
- The `NL` table is a `static final` field in Java. The model holds it as a
  `const` array field of each `Cpr` object. The decoder methods therefore
  require that the output arrays are not the table, which Java guarantees
  because the table is private.
- The decoder methods require output arrays of length at least 1, as the
  Java code indexes slot 0. When both outputs are the same array, the
  longitude (written last) is what remains, and the methods say so.
- The test fixtures and printing loops (src/CPR.java:339-664) are not
  modelled as code. Their vectors are proved as lemmas in `CprVectors`.
- src/Main.java, src/cpr/Main.java, test/src/test/Main.java,
  src/cpr/LatLon.java and src/cpr/CPRException.java are not part of this
  model. They are entry points and console output; the LatLon/CPRException
  API that test/src/test/Main.java calls is not the one src/CPR.java
  implements, which returns status codes and writes output arrays.
- CprProperties.RelativeRecovers: does not cover a reference and a position
  on opposite sides of the antimeridian. decodeCPRrelative rejects some of
  those (see Findings), and `CprAntimeridian.RelativeCheckedRecovers` covers
  them for the corrected check, its longitude only up to whole turns.
- CprDecode.Relative and CprAntimeridian.RelativeChecked: neither brings a
  longitude below -180 back into range, as decodeCPRrelative wraps only
  longitudes beyond 180 (src/CPR.java:324-326). A position just west of the
  antimeridian, decoded against a reference just east of it, comes out one
  turn low (`CprAntimeridian.RelativeBelowAntimeridian`).
- CprProperties.RelativeRecovers, CprAntimeridian.RelativeCheckedRecovers: state
  recovery for a position whose fields are the exact (unrounded) offsets, as
  AirborneRecovers does. A 17-bit field is a rounded offset, for which the
  decoders return the grid point of that field, not the position itself.
- CprProperties.AirborneRecovers: states recovery for a position whose fields
  are the exact (unrounded) offsets. Real encoders round the offsets to 17
  bits, so this is weaker than a statement about rounded fields.
- CprDecode.GlobalAirborne, CprDecode.GlobalSurface: the output longitude lies
  in [-180, 180), as the code's floor-based renormalisation gives. A longitude
  of exactly +180 is never returned, although the comment at the
  renormalisation reads "-180 .. +180".
- CprVectors: the lemmas check the expected outputs against exact
  arithmetic, not against the Java `double` results.

## Findings

| source | as written | input that shows it | evidently intended | confidence | as-written member | corrected member |
|---|---|---|---|---|---|---|
| src/CPR.java:322-333 | `decodeCPRrelative` moves a longitude beyond 180 down a turn, then rejects it if it is more than half a zone from the reference. A position just east of the antimeridian, decoded against a reference just west of it, ends near -180 after the wrap and fails the check against a reference near +180. The mirror case (position just west, reference just east) is accepted, but with a longitude below -180, since only longitudes beyond 180 are wrapped (`CprAntimeridian.RelativeBelowAntimeridian`). | reference (0, 179.9), airborne even packet with fields cprlat = 0 and cprlon = 65600. The position (0, about -179.997) encodes to these fields and lies about 0.103 degrees from the reference, within half a zone (about 3.05 degrees). The decoder returns -1 (longitude error). | the half-zone check measures distance before the wrap, or around the globe, so the position is decoded | not executed | CprAntimeridian.RelativeRejectsAcrossAntimeridian | CprAntimeridian.RelativeCheckedRecovers |

`CprDecode.Relative` and `CprClass.Cpr.DecodeRelative` model the code as
written. `CprAntimeridian.RelativeChecked` is the corrected decoder. It agrees
with the code wherever no wrap happens (`CprAntimeridian.RelativeCheckedAgrees`).
