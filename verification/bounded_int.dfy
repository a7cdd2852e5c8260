/** The element type `int` of the C++ program: its range, C++'s truncating
    division, and the overflow guards that the product computation relies on. */
module BoundedInt {

  /** `std::numeric_limits<int>::max()` and `min()` for a 32-bit `int`. */
  const MAX: int := 0x7FFF_FFFF
  const MIN: int := -0x8000_0000

  /** A value of the element type. */
  type Int32 = x: int | MIN <= x <= MAX

  function Abs(x: int): (n: nat) {
    if x < 0 then -x else x
  }

  lemma DivNonNegative(n: nat, d: int)
    requires 0 < d
    ensures 0 <= n / d
  {
  }

  /** C++ integer division, which truncates toward zero (Dafny's `/` is Euclidean). */
  function TruncDiv(x: int, y: int): (q: int)
    requires y != 0
    ensures Abs(q) == Abs(x) / Abs(y)
    ensures q == 0 || ((q < 0) <==> ((x < 0) != (y < 0)))
    ensures 0 <= x && 0 < y ==> q == x / y
  {
    DivNonNegative(Abs(x), Abs(y));
    if (x < 0) == (y < 0) then Abs(x) / Abs(y) else -(Abs(x) / Abs(y))
  }

  lemma MulNonNegative(x: int, y: int)
    requires 0 <= x && 0 <= y
    ensures 0 <= x * y
  {
  }

  /** Multiplying by a positive `c` keeps the sign of `x` and does not shrink it. */
  lemma MulMonotone(x: int, c: int)
    requires 0 < c
    ensures 0 <= x ==> 0 <= x * c
    ensures 1 <= x ==> c <= x * c
    ensures x <= -1 ==> x * c <= -c
  {
    if 1 <= x {
      MulNonNegative(x - 1, c);
    } else if x <= -1 {
      MulNonNegative(-x - 1, c);
    }
  }

  /** For a positive divisor, the quotient test `n / d < x` holds exactly when
      `d * x` exceeds `n`. */
  lemma DivGuard(n: nat, d: int, x: int)
    requires 0 < d
    ensures n / d < x <==> d * x > n
  {
    var q, r := n / d, n % d;
    assert n == d * q + r && 0 <= r < d;
    if q < x {
      MulNonNegative(d, x - q - 1);
      assert d * x == d * (x - q - 1) + d * q + d;
    } else {
      MulNonNegative(d, q - x);
      assert d * q == d * (q - x) + d * x;
    }
  }

  /** For a positive divisor, `MAX / d < x` holds exactly when `d * x` exceeds
      MAX: it detects the overflow without computing `d * x`. */
  lemma PositiveDivGuard(d: int, x: int)
    requires 0 < d
    ensures MAX / d < x <==> d * x > MAX
  {
    DivGuard(MAX, d, x);
  }

  /** The multiplication guard exactly as the product loop writes it,
      `a != 0 && MAX / a < b`, with C++ division. */
  predicate MulGuardAsWritten(a: Int32, b: Int32) {
    a != 0 && TruncDiv(MAX, a) < b
  }

  /** The guard the product loop evidently intends: it holds exactly when
      `a * b` exceeds MAX, and it is evaluated without leaving Int32. */
  predicate MulExceedsMax(a: Int32, b: Int32) {
    if 0 < a then MAX / a < b
    else if a < 0 then b < TruncDiv(MAX, a)
    else false
  }

  /** The intended guard is exact for every pair of Int32 values. */
  lemma MulExceedsMaxExact(a: Int32, b: Int32)
    ensures MulExceedsMax(a, b) <==> a * b > MAX
  {
    if 0 < a {
      PositiveDivGuard(a, b);
    } else if a < 0 {
      var d, x := 0 - a as int, 0 - b as int;
      PositiveDivGuard(d, x);
      assert TruncDiv(MAX, a) == -(MAX / d);
      assert a * b == d * x;
    }
  }

  /** On a non-negative first factor the guard as written is exact too, and it
      coincides with the intended one. */
  lemma MulGuardExactOnNonNegative(a: Int32, b: Int32)
    requires 0 <= a
    ensures MulGuardAsWritten(a, b) <==> a * b > MAX
    ensures MulGuardAsWritten(a, b) == MulExceedsMax(a, b)
  {
    if 0 < a {
      PositiveDivGuard(a, b);
    }
  }

  /** The guard as written lets `-1 * MIN` through although it exceeds MAX:
      for a negative `a`, `MAX / a < b` tests the wrong side of the quotient. */
  lemma MulGuardMissesNegativeOverflow()
    ensures !MulGuardAsWritten(-1, MIN)
    ensures -1 * MIN > MAX
  {
  }

  /** The same miss happens for every negative first factor whose quotient
      `MAX / a` is above `b`'s bound: here `a = -2`, `b = -0x4000_0001`, whose
      product `0x8000_0002` exceeds MAX. */
  lemma MulGuardMissesBothNegative()
    ensures !MulGuardAsWritten(-2, -0x4000_0001)
    ensures MulExceedsMax(-2, -0x4000_0001)
    ensures -2 * -0x4000_0001 > MAX
  {
  }

  /** Every overflow above MAX with a negative first factor gets past the
      guard as written. */
  lemma MulGuardMissesEveryNegativeOverflow(a: Int32, b: Int32)
    requires a < 0 && a * b > MAX
    ensures !MulGuardAsWritten(a, b)
  {
    MulExceedsMaxExact(a, b);
  }

  /** The guard as written also trips where nothing exceeds MAX: for a
      negative `a` and a positive `b`, `MAX / a` is at most 0 and so below
      `b`, although `a * b` is negative and does not exceed MAX. */
  lemma MulGuardTripsWithoutOverflow(a: Int32, b: Int32)
    requires a < 0 < b
    ensures MulGuardAsWritten(a, b)
    ensures a * b <= MAX && !MulExceedsMax(a, b)
  {
    var d := 0 - a as int;
    MulMonotone(b, d);
    assert a * b == -(b * d);
    MulExceedsMaxExact(a, b);
  }

  /** Not every such trip is spurious: `-2 * MAX` is below MIN, so the trip
      is what keeps the multiplication inside Int32. The corrected guard,
      which tests only for exceeding MAX, lets this pair through. */
  lemma MulGuardTripsBelowMin()
    ensures MulGuardAsWritten(-2, MAX)
    ensures -2 * MAX < MIN && !MulExceedsMax(-2, MAX)
  {
  }
}
