/**
 Finite binary64 numbers by exact value, and the conversion of an integer to
 binary64 with roundTiesToEven (section 4.3.1 of IEEE 754-2019), which is what
 `as_f64` does to an integer `serde_json::Number`.

 A double is represented by the real number it denotes. The two zeros are one
 value here: every operation in the model compares doubles with `==`.
 */
module Doubles {

  function Pow2(n: nat): (p: nat)
    ensures p >= 1
  {
    if n == 0 then 1 else 2 * Pow2(n - 1)
  }

  const TWO53: int := 0x20_0000_0000_0000
  const TWO63: int := 0x8000_0000_0000_0000
  const TWO64: int := 0x1_0000_0000_0000_0000
  const TWO127: int := 0x8000_0000_0000_0000_0000_0000_0000_0000

  /** `m * 2^e` (normal range upwards). */
  ghost predicate IsWholeMultiple(v: real, m: int, e: nat) {
    -TWO53 < m < TWO53 && e <= 971 && v == (m * Pow2(e)) as real
  }

  /** `m / 2^e`, written without division. */
  ghost predicate IsFraction(v: real, m: int, e: nat) {
    -TWO53 < m < TWO53 && e <= 1074 && v * (Pow2(e) as real) == m as real
  }

  /** The values a finite binary64 datum can take. */
  ghost predicate IsDouble(v: real) {
    (exists m: int, e: nat :: IsWholeMultiple(v, m, e)) ||
    (exists m: int, e: nat :: IsFraction(v, m, e))
  }

  type Double = v: real | IsDouble(v) witness (assert IsWholeMultiple(0.0, 0, 0); 0.0)

  function Abs(x: real): (r: real)
    ensures r >= 0.0 && (r == x || r == -x)
  {
    if x < 0.0 then -x else x
  }

  /** Least shift that brings `n` below 2^53: the exponent of its unit in the last place. */
  function Shift(n: nat): (s: nat)
    ensures n < TWO53 * Pow2(s)
    ensures s > 0 ==> TWO53 * Pow2(s - 1) <= n
    decreases n
  {
    if n < TWO53 then 0
    else
      var s := Shift(n / 2);
      assert Pow2(s + 1) == 2 * Pow2(s);
      s + 1
  }

  /** Quotient rounded to nearest, ties to the even quotient. */
  function RoundedQuotient(n: nat, g: nat): (q: nat)
    requires g > 0
  {
    var q, r := n / g, n % g;
    if 2 * r > g || (2 * r == g && q % 2 == 1) then q + 1 else q
  }

  /** `n as f64` for a nonnegative integer: always an integer again. */
  function RoundNat(n: nat): (r: nat) {
    var g := Pow2(Shift(n));
    RoundedQuotient(n, g) * g
  }

  /** `n as f64`. */
  function RoundInt(n: int): (r: int) {
    if n < 0 then 0 - RoundNat(-n) else RoundNat(n)
  }

  // ---------- the conversion is the IEEE rounding ----------

  lemma {:induction false} Pow2Monotone(a: nat, b: nat)
    requires a <= b
    ensures Pow2(a) <= Pow2(b)
    decreases b - a
  {
    if a == b {
    } else {
      Pow2Monotone(a + 1, b);
    }
  }

  lemma {:induction false} Pow2Divides(a: nat, b: nat) returns (k: nat)
    requires a <= b
    ensures Pow2(b) == k * Pow2(a)
    decreases b - a
  {
    if a == b {
      k := 1;
    } else {
      var j := Pow2Divides(a, b - 1);
      assert Pow2(b) == 2 * (j * Pow2(a)) == (2 * j) * Pow2(a);
      k := 2 * j;
    }
  }

  lemma MulMonotone(a: int, b: int, x: int, y: int)
    requires 0 <= a <= b && 0 <= x <= y
    ensures a * x <= b * y
  {
  }

  /** A 64-bit integer loses at most eleven bits. */
  lemma ShiftBound(n: nat)
    requires n < TWO64
    ensures Shift(n) <= 11 && Pow2(Shift(n)) <= 2048
  {
    assert Pow2(11) == 2048;
    if Shift(n) > 11 {
      Pow2Monotone(11, Shift(n) - 1);
    } else {
      Pow2Monotone(Shift(n), 11);
    }
  }

  /** `n` lies between the multiples `low` and `low + g`, and its rounding is the nearer one. */
  ghost predicate Surrounds(n: nat, g: nat, low: nat, rounded: nat) {
    low <= n <= low + g &&
    (rounded == low || rounded == low + g) &&
    (rounded == low ==> 2 * (n - low) <= g) &&
    (rounded == low + g ==> 2 * (low + g - n) <= g)
  }

  lemma RoundedQuotientSurrounds(n: nat, g: nat)
    requires g > 0
    ensures Surrounds(n, g, (n / g) * g, RoundedQuotient(n, g) * g)
  {
  }

  /** The lower grid neighbour of a number that needs shifting is at least 2^53 half-units. */
  lemma LowNeighbour(n: nat)
    requires Shift(n) > 0
    ensures var h := Pow2(Shift(n) - 1);
            Pow2(Shift(n)) == 2 * h && TWO53 * h <= (n / (2 * h)) * (2 * h)
  {
    var h := Pow2(Shift(n) - 1);
    var q, half := n / (2 * h), TWO53 / 2;
    assert TWO53 * h == half * (2 * h);
    QuotientAtLeast(n, 2 * h, half);
    MulMonotone(half, q, 2 * h, 2 * h);
  }

  lemma QuotientAtLeast(n: nat, g: nat, a: nat)
    requires g > 0 && a * g <= n
    ensures a <= n / g
  {
    assert n < (n / g + 1) * g;
    if n / g < a {
      MulMonotone(n / g + 1, a, g, g);
    }
  }

  lemma MultipleOutside(j: int, q: int, g: nat)
    ensures j * g <= q * g || q * g + g <= j * g
  {
    if j <= q {
      Scaled(j, q, g);
    } else {
      Scaled(q + 1, j, g);
      assert (q + 1) * g == q * g + g;
    }
  }

  lemma Scaled(a: int, b: int, g: nat)
    requires a <= b
    ensures a * g <= b * g
  {
  }

  lemma Reassociate(m: int, k: int, g: int)
    ensures m * (k * g) == (m * k) * g
  {
  }

  /** An integer with a 53-bit significand does not fall strictly between the neighbours of `n`. */
  lemma WholeOutside(n: nat, m: int, e: nat)
    requires Shift(n) > 0 && -TWO53 < m < TWO53
    ensures var g := Pow2(Shift(n)); var low := (n / g) * g;
            m * Pow2(e) <= low || low + g <= m * Pow2(e)
  {
    var s := Shift(n);
    var g := Pow2(s);
    var q := n / g;
    if e < s {
      LowNeighbour(n);
      Pow2Monotone(e, s - 1);
      Scaled(m, TWO53, Pow2(e));
      MulMonotone(TWO53, TWO53, Pow2(e), Pow2(s - 1));
    } else {
      var k := Pow2Divides(s, e);
      Reassociate(m, k, g);
      MultipleOutside(m * k, q, g);
    }
  }

  /** A proper fraction stays below 2^53, hence below the neighbours of `n`. */
  lemma FractionBelow(d: real, m: int, e: nat)
    requires IsFraction(d, m, e)
    ensures d <= TWO53 as real
  {
  }

  /** Both neighbours of `n` on its grid surround it with no double strictly between them. */
  lemma NoDoubleBetween(n: nat, d: real)
    requires Shift(n) > 0 && IsDouble(d)
    ensures var g := Pow2(Shift(n)); var low := (n / g) * g;
            d <= low as real || (low + g) as real <= d
  {
    if m: int, e: nat :| IsWholeMultiple(d, m, e) {
      WholeOutside(n, m, e);
    } else {
      var m: int, e: nat :| IsFraction(d, m, e);
      FractionBelow(d, m, e);
      LowNeighbour(n);
      MulMonotone(TWO53, TWO53, 1, Pow2(Shift(n) - 1));
    }
  }

  /** roundTiesToEven: no double is closer to the integer, and a tie goes to the even quotient. */
  lemma RoundNatIsNearest(n: nat, d: real)
    requires IsDouble(d)
    ensures Abs(RoundNat(n) as real - n as real) <= Abs(d - n as real)
    ensures var g := Pow2(Shift(n));
            2 * (n % g) == g ==> RoundedQuotient(n, g) % 2 == 0
  {
    if Shift(n) == 0 {
      SmallIntsAreExact(n);
    } else {
      var g := Pow2(Shift(n));
      RoundedQuotientSurrounds(n, g);
      NoDoubleBetween(n, d);
      NearerOfTwo(n, g, (n / g) * g, RoundNat(n), d);
    }
    TieGoesToEven(n, Pow2(Shift(n)));
  }

  lemma TieGoesToEven(n: nat, g: nat)
    requires g > 0
    ensures 2 * (n % g) == g ==> RoundedQuotient(n, g) % 2 == 0
  {
  }

  lemma NearerOfTwo(n: nat, g: nat, low: nat, rounded: nat, d: real)
    requires Surrounds(n, g, low, rounded)
    requires d <= low as real || (low + g) as real <= d
    ensures Abs(rounded as real - n as real) <= Abs(d - n as real)
  {
  }

  /** The result of the conversion is a double, for every 64-bit integer. */
  lemma RoundNatIsDouble(n: nat)
    requires n < TWO64
    ensures RoundNat(n) <= TWO64
    ensures IsDouble(RoundNat(n) as real) && IsDouble(-(RoundNat(n) as real))
  {
    var s := Shift(n);
    var g := Pow2(s);
    ShiftBound(n);
    var q := RoundedQuotient(n, g);
    assert q <= TWO53 by { SignificandBound(n); }
    MulMonotone(q, TWO53, g, 2048);
    if q == TWO53 {
      assert TWO53 * g == (TWO53 / 2) * Pow2(s + 1);
      WholeMultiplesAreDoubles(RoundNat(n), TWO53 / 2, s + 1);
    } else {
      WholeMultiplesAreDoubles(RoundNat(n), q, s);
    }
  }

  lemma WholeMultiplesAreDoubles(x: nat, m: nat, e: nat)
    requires m < TWO53 && e <= 971 && x == m * Pow2(e)
    ensures IsDouble(x as real) && IsDouble(-(x as real))
  {
    assert IsWholeMultiple(x as real, m, e);
    assert (0 - m) * Pow2(e) == 0 - m * Pow2(e);
    assert IsWholeMultiple(-(x as real), 0 - m, e);
  }

  lemma SignificandBound(n: nat)
    ensures RoundedQuotient(n, Pow2(Shift(n))) <= TWO53
  {
    var g := Pow2(Shift(n));
    var q := n / g;
    assert q * g <= n;
    if q >= TWO53 {
      MulMonotone(TWO53, q, g, g);
    }
  }

  lemma NegationIsDouble(d: real)
    requires IsDouble(d)
    ensures IsDouble(-d)
  {
    if m: int, e: nat :| IsWholeMultiple(d, m, e) {
      assert (0 - m) * Pow2(e) == 0 - m * Pow2(e);
      assert IsWholeMultiple(-d, 0 - m, e);
    } else {
      var m: int, e: nat :| IsFraction(d, m, e);
      assert -d * (Pow2(e) as real) == -(d * (Pow2(e) as real));
      assert IsFraction(-d, 0 - m, e);
    }
  }

  /** The conversion of any integer is a nearest double. */
  lemma RoundIntIsNearest(n: int, d: real)
    requires IsDouble(d)
    ensures Abs(RoundInt(n) as real - n as real) <= Abs(d - n as real)
  {
    if n < 0 {
      NegationIsDouble(d);
      RoundNatIsNearest(0 - n, -d);
    } else {
      RoundNatIsNearest(n, d);
    }
  }

  /** Integers below 2^53 convert exactly. */
  lemma SmallIntsAreExact(n: int)
    requires -TWO53 < n < TWO53
    ensures RoundInt(n) == n
  {
  }
}
