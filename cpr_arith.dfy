/** The always-positive modulo operations of the CPR decoder (cprModInt and
    cprModDouble), and the grid arithmetic the decoders share: the offset of a
    point inside its cell, the renormalisation of a longitude into [-180, 180)
    and the choice of the 90-degree quadrant nearest a reference. */
module CprArith {

  /** x is a whole number. */
  predicate IsWhole(x: real)
  {
    x.Floor as real == x
  }

  /** Java's `%` on int: truncates toward zero, so the remainder takes the sign
      of the dividend and is smaller than b in magnitude. */
  function JavaRem(a: int, b: int): (r: int)
    requires b > 0
    ensures -b < r < b
    ensures r == 0 || (r < 0 <==> a < 0)
  {
    if a >= 0 then a % b else -((-a) % b)
  }

  /** JavaRem differs from a by a multiple of b. */
  lemma JavaRemCongruent(a: int, b: int)
    requires b > 0
    ensures (a - JavaRem(a, b)) % b == 0
  {
    var k;
    if a >= 0 {
      k := a / b;
      assert a - JavaRem(a, b) == b * k;
    } else {
      k := -((-a) / b);
      assert a - JavaRem(a, b) == b * k;
    }
    ModAddMultiple(0, b, k);
  }

  /** cprModInt: the remainder of a by b, moved into [0, b) when Java's `%`
      leaves it negative. */
  function CprModInt(a: int, b: int): (r: int)
    requires b > 0
    ensures 0 <= r < b
  {
    var res := JavaRem(a, b);
    if res < 0 then res + b else res
  }

  /** cprModInt is the mathematical (Euclidean) remainder: the one value in
      [0, b) congruent to a modulo b. */
  lemma {:induction false} ModIntIsEuclidean(a: int, b: int)
    requires b > 0
    ensures CprModInt(a, b) == a % b
  {
    var res := JavaRem(a, b);
    JavaRemCongruent(a, b);
    if res < 0 {
      ModAddMultiple(a - res, b, -1);
    }
    var r := CprModInt(a, b);
    assert (a - r) % b == 0;
    var k := (a - r) / b;
    assert a == k * b + r;
    ModUnique(a, b, k, r);
  }

  /** Division with remainder in [0, b) is unique. */
  lemma ModUnique(a: int, b: int, q: int, r: int)
    requires b > 0 && 0 <= r < b && a == q * b + r
    ensures a % b == r && a / b == q
  {
    var q', r' := a / b, a % b;
    assert a == q' * b + r';
    assert (q - q') * b == r' - r;
    if q - q' >= 1 {
      MulAtLeast(q - q', b);
    } else if q' - q >= 1 {
      MulAtLeast(q' - q, b);
    }
  }

  lemma MulAtLeast(k: int, b: int)
    requires k >= 1 && b > 0
    ensures k * b >= b
  {
    assert k * b == (k - 1) * b + b;
    assert (k - 1) * b >= 0;
  }

  /** Adding a multiple of n does not change the remainder modulo n. */
  lemma ModAddMultiple(a: int, n: int, k: int)
    requires n > 0
    ensures (a + n * k) % n == a % n
  {
    var q, r := a / n, a % n;
    assert a + n * k == (q + k) * n + r;
    ModUnique(a + n * k, n, q + k, r);
  }

  /** Math.IEEEremainder over the reals: a - n * b where n is a / b rounded to
      the nearest integer. Halves are rounded up here, where IEEE rounds them
      to even; AnyTieRule shows that cprModDouble's result is the same for
      either choice. */
  function IeeeRemainder(a: real, b: real): (r: real)
    requires b > 0.0
    ensures -b / 2.0 <= r < b / 2.0
  {
    var n := (a / b + 0.5).Floor;
    NearestQuotient(a, b, n);
    a - n as real * b
  }

  /** Rounding a / b to the nearest integer n leaves a - n * b within half of b. */
  lemma NearestQuotient(a: real, b: real, n: int)
    requires b > 0.0 && n == (a / b + 0.5).Floor
    ensures -b / 2.0 <= a - n as real * b < b / 2.0
  {
    assert n as real <= a / b + 0.5;
    assert a / b + 0.5 < n as real + 1.0;
    var x := a / b - n as real;
    assert -0.5 <= x < 0.5;
    RemainderScaled(a, b, n);
    assert a - n as real * b == b * x;
    MulBounds(b, x);
  }

  /** a - n * b is b times how far a / b lies above n. */
  lemma RemainderScaled(a: real, b: real, n: int)
    requires b > 0.0
    ensures a - n as real * b == b * (a / b - n as real)
  {
    QuotientTimes(a, b);
    assert b * (a / b - n as real) == b * (a / b) - b * n as real;
  }

  /** cprModDouble for a positive divisor: the remainder of a by b in [0, b),
      the point of a inside its cell of width b, measured from the cell's
      lower edge. */
  function CprModReal(a: real, b: real): (r: real)
    requires b > 0.0
    ensures 0.0 <= r < b
    ensures r == a - (a / b).Floor as real * b
  {
    var res := IeeeRemainder(a, b);
    var n := (a / b + 0.5).Floor;
    var x := a / b - n as real;
    assert n as real <= a / b + 0.5;
    assert a / b + 0.5 < n as real + 1.0;
    RemainderScaled(a, b, n);
    assert res == b * x;
    MulSign(b, x);
    if res < 0.0 then
      assert (a / b).Floor == n - 1;
      res + b
    else
      assert (a / b).Floor == n;
      res
  }

  /** cprModDouble's correction gives the same result from the remainder of
      any nearest quotient n, whichever way a tie is rounded. */
  lemma {:induction false} AnyTieRule(a: real, b: real, n: int)
    requires b > 0.0
    requires a / b - 0.5 <= n as real <= a / b + 0.5
    ensures var res := a - n as real * b;
      (if res < 0.0 then res + b else res) == CprModReal(a, b)
  {
    var x := a / b - n as real;
    RemainderScaled(a, b, n);
    MulSign(b, x);
    var res := a - n as real * b;
    assert res == b * x;
    if res < 0.0 {
      assert (n - 1) as real <= a / b < n as real;
      assert (a / b).Floor == n - 1;
    } else {
      assert n as real <= a / b < (n + 1) as real;
      assert (a / b).Floor == n;
    }
  }

  lemma QuotientTimes(a: real, b: real)
    requires b > 0.0
    ensures b * (a / b) == a
  {
  }

  lemma QuotientIs(a: real, b: real, q: real)
    requires b > 0.0 && q == a / b
    ensures b * q == a
  {
  }

  lemma MulBounds(b: real, x: real)
    requires b > 0.0 && -0.5 <= x < 0.5
    ensures -b / 2.0 <= b * x < b / 2.0
  {
  }

  lemma MulSign(b: real, x: real)
    requires b > 0.0
    ensures b * x < 0.0 <==> x < 0.0
  {
  }

  /** The point at fraction frac of cell number idx on a grid of cells of
      width cell. */
  function GridPoint(cell: real, idx: int, frac: real): real
  {
    cell * (idx as real + frac)
  }

  /** The exact (unrounded) CPR encoding of x on a grid of cells of width cell:
      how far through its cell x lies, as a fraction in [0, 1). A 17-bit field
      holds this fraction times 2^17. */
  function CellOffset(x: real, cell: real): (f: real)
    requires cell > 0.0
    ensures 0.0 <= f < 1.0
  {
    x / cell - (x / cell).Floor as real
  }

  /** A point cell * (k + f) with 0 <= f < 1 lies at offset f of its cell. */
  lemma {:induction false} OffsetOfGridPoint(cell: real, k: int, f: real)
    requires cell > 0.0 && 0.0 <= f < 1.0
    ensures CellOffset(GridPoint(cell, k, f), cell) == f
  {
    var x := GridPoint(cell, k, f);
    assert x / cell == k as real + f;
    assert (x / cell).Floor == k;
  }

  /** Every x is the point at its offset f in its cell k. */
  lemma {:induction false} GridPointOfOffset(x: real, cell: real, k: int, f: real)
    requires cell > 0.0 && k == (x / cell).Floor && f == CellOffset(x, cell)
    ensures GridPoint(cell, k, f) == x
  {
    assert k as real + f == x / cell;
    QuotientTimes(x, cell);
  }

  /** Shifting x by a whole number of cells keeps its offset. */
  lemma {:induction false} OffsetShift(x: real, cell: real, k: int)
    requires cell > 0.0
    ensures CellOffset(x + k as real * cell, cell) == CellOffset(x, cell)
  {
    var y := x + k as real * cell;
    DivAddMultiple(x, cell, k as real);
    assert y / cell == x / cell + k as real;
    assert (y / cell).Floor == (x / cell).Floor + k;
  }

  lemma DivAddMultiple(x: real, c: real, k: real)
    requires c > 0.0
    ensures (x + k * c) / c == x / c + k
  {
  }

  /** Shifting x by k times n cells (a span made of n whole cells) keeps its
      offset. */
  lemma {:induction false} OffsetShiftSpan(x: real, cell: real, n: int, span: real, k: int)
    requires cell > 0.0 && span == cell * n as real
    ensures CellOffset(x + k as real * span, cell) == CellOffset(x, cell)
  {
    var kn := k * n;
    assert k as real * span == kn as real * cell;
    OffsetShift(x, cell, kn);
  }

  /** The longitude renormalisation of the global decoders: x moved by a whole
      number of turns into [-180, 180). */
  function Renormalize(x: real): (r: real)
    ensures -180.0 <= r < 180.0
    ensures IsWhole((x - r) / 360.0)
  {
    x - ((x + 180.0) / 360.0).Floor as real * 360.0
  }

  /** [-180, 180) holds exactly one representative of each longitude. */
  lemma {:induction false} RenormalizeUnique(x: real, k: int)
    requires -180.0 <= x < 180.0
    ensures Renormalize(x + k as real * 360.0) == x
  {
    var y := x + k as real * 360.0;
    assert (y + 180.0) / 360.0 == (x + 180.0) / 360.0 + k as real;
    assert ((y + 180.0) / 360.0).Floor == k;
  }

  /** Renormalize sees longitudes modulo a whole turn. */
  lemma {:induction false} RenormalizeShift(x: real, k: int)
    ensures Renormalize(x + k as real * 360.0) == Renormalize(x)
  {
    var r := Renormalize(x);
    var t := ((x - r) / 360.0).Floor;
    assert x == r + t as real * 360.0;
    assert x + k as real * 360.0 == r + (t + k) as real * 360.0;
    RenormalizeUnique(r, t + k);
    RenormalizeUnique(r, t);
  }

  /** The surface decoder's quadrant step: rlon moved by a whole number of
      quarter turns to the copy nearest reflon, within (reflon - 45, reflon + 45]. */
  function QuadrantShift(rlon: real, reflon: real): (r: real)
    ensures reflon - 45.0 < r <= reflon + 45.0
    ensures IsWhole((r - rlon) / 90.0)
  {
    rlon + ((reflon - rlon + 45.0) / 90.0).Floor as real * 90.0
  }

  /** No other quarter-turn copy of rlon is nearer reflon than QuadrantShift's. */
  lemma {:induction false} QuadrantShiftNearest(rlon: real, reflon: real, k: int)
    ensures Abs(QuadrantShift(rlon, reflon) - reflon) <= Abs(rlon + k as real * 90.0 - reflon)
  {
    var q := ((reflon - rlon + 45.0) / 90.0).Floor;
    var r := QuadrantShift(rlon, reflon);
    assert r == rlon + q as real * 90.0;
    if k > q {
      assert rlon + k as real * 90.0 >= r + 90.0;
    } else if k < q {
      assert rlon + k as real * 90.0 <= r - 90.0;
    }
  }

  function Abs(x: real): (r: real)
    ensures r >= 0.0 && (r == x || r == -x)
  {
    if x < 0.0 then -x else x
  }
}
