/** Semantics of the C `int` arithmetic the rasterizer relies on. */
module CInt {

  const IntMin: int := -0x8000_0000
  const IntMax: int := 0x7FFF_FFFF

  /** Bound on the coordinates and radii handed to the drawing routines: with
      |v| <= CoordMax every difference is below 2^15 and every product of two
      differences below 2^30, so no C `int` expression of the rasterizer overflows. */
  const CoordMax: int := 0x4000

  predicate IsInt(v: int) { IntMin <= v <= IntMax }

  predicate IsCoord(v: int) { -CoordMax <= v <= CoordMax }

  function Abs(v: int): nat { if v < 0 then -v else v }

  function Min(a: int, b: int): int { if a <= b then a else b }

  function Max(a: int, b: int): int { if a <= b then b else a }

  /** C's `/` on signed integers: the magnitude of the quotient is |a| / |b|
      and its sign is negative exactly when the operands' signs differ, i.e.
      the quotient is truncated toward zero. */
  function TDiv(a: int, b: int): int
    requires b != 0
  {
    var m := Abs(a) / Abs(b);
    if (a < 0) == (b < 0) then m else -m
  }

  /** The defining law of C division: a == q*b + e where the remainder e is
      smaller than the divisor in magnitude and is zero or has the sign of the
      dividend. */
  lemma TDivRemainder(a: int, b: int)
    requires b != 0
    ensures var e := a - TDiv(a, b) * b;
      Abs(e) < Abs(b) && (e == 0 || (e < 0) == (a < 0))
  {
    var A: int, B: int := Abs(a), Abs(b);
    var m := A / B;
    var r := A % B;
    assert A == m * B + r;
    var mb := m * b;
    if b < 0 {
      assert mb == -(m * B) by { assert b == -B; }
    } else {
      assert mb == m * B;
    }
    assert (-m) * b == -mb;
  }

  /** Euclidean division by a positive divisor is determined by its remainder. */
  lemma DivUnique(c: int, d: int, q: int, r: int)
    requires d > 0 && 0 <= r < d && c == q * d + r
    ensures c / d == q
  {
    var q', r' := c / d, c % d;
    assert (q - q') * d == r' - r;
    UnitMultiple(q - q', d);
  }

  /** Truncation rounds toward zero: on a non-negative dividend and a positive
      divisor it agrees with Euclidean division, on a negative dividend it
      exceeds it by one exactly when the division is inexact. */
  lemma TDivFloor(a: int, b: int)
    requires b > 0
    ensures a >= 0 ==> TDiv(a, b) == a / b
    ensures a < 0 ==> TDiv(a, b) == a / b + (if a % b == 0 then 0 else 1)
  {
    if a < 0 {
      var n := -a;
      var q, r := n / b, n % b;
      assert TDiv(a, b) == -q;
      assert n == q * b + r;
      if r == 0 {
        DivUnique(a, b, -q, 0);
      } else {
        assert a == (-q - 1) * b + (b - r);
        DivUnique(a, b, -q - 1, b - r);
      }
    }
  }

  /** An exact multiple divides back to its factor. */
  lemma TDivExact(k: int, n: int)
    requires n > 0
    ensures TDiv(k * n, n) == k
  {
    DivUnique(k * n, n, k, 0);
    TDivFloor(k * n, n);
  }

  /** A multiple of a positive b strictly between -b and b is zero. */
  lemma UnitMultiple(d: int, b: int)
    requires b > 0 && -b < d * b < b
    ensures d == 0
  {
    MulAtLeast(d, b);
  }

  lemma MulAtLeast(d: int, b: int)
    requires b > 0
    ensures d >= 1 ==> d * b >= b
    ensures d <= -1 ==> d * b <= -b
  {
    if d >= 1 {
      assert d * b - b == (d - 1) * b;
    } else if d <= -1 {
      assert d * b + b == (d + 1) * b;
    }
  }

  lemma MulLe(a: nat, b: nat, c: nat)
    requires a <= b
    ensures a * c <= b * c
  {
    assert b * c - a * c == (b - a) * c;
  }

  /** Multiplying by a positive factor preserves strict and non-strict order. */
  lemma FactorOrder(x: int, y: int, n: int)
    requires n > 0
    ensures x * n <= y * n <==> x <= y
    ensures x * n < y * n <==> x < y
  {
    assert y * n - x * n == (y - x) * n;
    MulAtLeast(y - x, n);
  }

  /** Euclidean division stays within integer bounds that bracket the exact
      quotient. */
  lemma DivBounds(s: int, n: int, lo: int, hi: int)
    requires n > 0 && lo * n <= s <= hi * n
    ensures lo <= s / n <= hi
  {
    var q := s / n;
    assert q * n <= s < q * n + n;
    assert q * n + n == (q + 1) * n;
    FactorOrder(q, hi, n);
    FactorOrder(lo, q + 1, n);
  }

  /** So does truncating division. */
  lemma QuotientBounds(s: int, n: int, lo: int, hi: int)
    requires n > 0 && lo * n <= s <= hi * n
    ensures lo <= TDiv(s, n) <= hi
  {
    if s >= 0 {
      TDivFloor(s, n);
      DivBounds(s, n, lo, hi);
    } else {
      assert TDiv(s, n) == -((-s) / n);
      assert (-hi) * n <= -s <= (-lo) * n;
      DivBounds(-s, n, -hi, -lo);
    }
  }

  /** Linear interpolation along an edge: for 0 <= t <= n the truncated value of
      t*d/n lies between 0 and d; mirrored for -n <= t <= 0 it lies between -d and 0. */
  lemma TDivBetween(t: int, d: int, n: int)
    requires n > 0 && -n <= t <= n
    ensures 0 <= t ==> Min(0, d) <= TDiv(t * d, n) <= Max(0, d)
    ensures t <= 0 ==> Min(0, -d) <= TDiv(t * d, n) <= Max(0, -d)
  {
    var e := if 0 <= t then d else -d;
    var u := Abs(t);
    assert t * d == u * e;
    if t == 0 {
      assert t * d == 0 * n;
      TDivExact(0, n);
    } else if e >= 0 {
      MulLe(u, n, e);
      assert 0 * n <= u * e <= e * n;
      QuotientBounds(t * d, n, 0, e);
    } else {
      MulLe(u, n, -e);
      assert u * e == -(u * -e) && e * n == -(n * -e);
      QuotientBounds(t * d, n, e, 0);
    }
  }

  /** Euclidean division by a positive divisor is monotone on naturals. */
  lemma DivMono(u: nat, v: nat, n: int)
    requires n > 0 && u <= v
    ensures u / n <= v / n
  {
    MulLe(1, n, v);
    DivBounds(v, n, u / n, v);
  }

  /** So is truncating division. */
  lemma TDivMono(a: int, b: int, n: int)
    requires n > 0 && a <= b
    ensures TDiv(a, n) <= TDiv(b, n)
  {
    if 0 <= a {
      DivMono(a, b, n);
      assert TDiv(a, n) == a / n && TDiv(b, n) == b / n;
    } else if b <= 0 {
      DivMono(-b, -a, n);
      assert TDiv(a, n) == -((-a) / n) && TDiv(b, n) == -((-b) / n);
    } else {
      DivMono(0, -a, n);
      DivMono(0, b, n);
      assert TDiv(a, n) == -((-a) / n) && TDiv(b, n) == b / n;
    }
  }

  /** Adding k whole divisors raises a truncated quotient by at most k. */
  lemma TDivShift(b: int, k: nat, n: int)
    requires n > 0
    ensures TDiv(b, n) <= TDiv(b + k * n, n) <= TDiv(b, n) + k
  {
    MulLe(0, k, n);
    TDivMono(b, b + k * n, n);
    var q, r := b / n, b % n;
    DivUnique(b + k * n, n, q + k, r);
    assert (b + k * n) % n == r;
    TDivFloor(b, n);
    TDivFloor(b + k * n, n);
  }

  /** Moving the dividend by e*s with 0 <= s <= n moves the truncated
      quotient by an amount between 0 and e. */
  lemma QuotientStep(b: int, e: int, s: int, n: int)
    requires n > 0 && 0 <= s <= n
    ensures Min(0, e) <= TDiv(b + e * s, n) - TDiv(b, n) <= Max(0, e)
  {
    if e >= 0 {
      MulLe(0, s, e);
      MulLe(s, n, e);
      TDivMono(b, b + e * s, n);
      TDivMono(b + e * s, b + e * n, n);
      TDivShift(b, e, n);
    } else {
      MulLe(0, s, -e);
      MulLe(s, n, -e);
      assert e * s == -(s * -e) && e * n == -(n * -e);
      var c := b + e * n;
      assert c + (-e) * n == b;
      TDivMono(c, b + e * s, n);
      TDivMono(b + e * s, b, n);
      TDivShift(c, -e, n);
    }
  }

  /** A negative divisor negates the truncated quotient. */
  lemma TDivNegDivisor(a: int, n: int)
    requires n > 0
    ensures TDiv(a, -n) == -TDiv(a, n)
  {
  }

  /** swap_int: exchanges the values behind its two pointers. */
  method SwapInt(x1: int, x2: int) returns (y1: int, y2: int)
    ensures y1 == x2 && y2 == x1
  {
    var temp := x1;
    y1 := x2;
    y2 := temp;
  }
}
