/**
 The conversions between int32 and float that the typed getters of a message make: binary32 of IEEE 754-2008 with the
 default rounding, to the nearest and on ties to even.
 */
module Binary32 {
  import opened Arithmetic
  import opened Bytes

  function Pow2(k: nat): (r: nat)
    ensures 1 <= r
  {
    if k == 0 then 1 else 2 * Pow2(k - 1)
  }

  function Magnitude(n: int): nat {
    if n < 0 then -n else n
  }

  // ----- what a pattern stands for

  function Exponent(bits: uint32): nat {
    bits / 0x80_0000 % 0x100
  }

  function Fraction(bits: uint32): nat {
    bits % 0x80_0000
  }

  predicate Negative(bits: uint32) {
    0x8000_0000 <= bits
  }

  predicate Finite(bits: uint32) {
    Exponent(bits) < 0xFF
  }

  /** Every finite float is a whole number of units of 2^-149. */
  function Scaled(bits: uint32): nat {
    if Exponent(bits) == 0 then Fraction(bits) else (0x80_0000 + Fraction(bits)) * Pow2(Exponent(bits) - 1)
  }

  function SignedScaled(bits: uint32): int {
    if Negative(bits) then -(Scaled(bits) as int) else Scaled(bits)
  }

  /** Truncation towards zero. For a value outside int32 the C++ standard defines no result. */
  function FloatToInt(bits: uint32): Option<int32> {
    var whole := Scaled(bits) / Pow2(149);
    var n := if Negative(bits) then -whole else whole;
    if Finite(bits) && -0x8000_0000 <= n < 0x8000_0000 then Some(n) else None
  }

  // ----- from int32

  function Log2(a: nat): (k: nat)
    requires 0 < a
    ensures Pow2(k) <= a < Pow2(k + 1)
  {
    if a == 1 then 0 else 1 + Log2(a / 2)
  }

  /** a in units of u, to the nearest, on ties to even. */
  function Nearest(a: nat, u: nat): nat
    requires 0 < u
  {
    var q, r := a / u, a % u;
    if u < 2 * r || (u == 2 * r && q % 2 == 1) then q + 1 else q
  }

  /** The distance between neighbouring floats where a lies, but not below 1. */
  function Unit(a: nat): (u: nat)
    requires 0 < a
    ensures 0 < u
  {
    if Log2(a) <= 23 then 1 else Pow2(Log2(a) - 23)
  }

  /** The integer that becomes of a magnitude. */
  function Rounded(a: nat): nat {
    if a == 0 then 0 else Nearest(a, Unit(a)) * Unit(a)
  }

  /** 24 significant bits; when rounding carries, their sum with the exponent carries too. */
  function Significand(a: nat): int
    requires 0 < a
  {
    if Log2(a) <= 23 then a * Pow2(23 - Log2(a)) else Nearest(a, Unit(a))
  }

  function IntToFloat(n: int32): uint32 {
    if n == 0 then 0 else
    var a := Magnitude(n);
    SignificandBounds(a);
    (if n < 0 then 0x8000_0000 else 0) + (Log2(a) + 126) * 0x80_0000 + Significand(a)
  }

  lemma {:induction false} Pow2Add(j: nat, k: nat)
    ensures Pow2(j) * Pow2(k) == Pow2(j + k)
  {
    if j != 0 {
      Pow2Add(j - 1, k);
      assert Pow2(j) * Pow2(k) == 2 * (Pow2(j - 1) * Pow2(k));
    }
  }

  lemma {:induction false} Pow2Monotone(j: nat, k: nat)
    requires j <= k
    ensures Pow2(j) <= Pow2(k)
  {
    if j < k {
      Pow2Monotone(j, k - 1);
    }
  }

  lemma Pow2Values()
    ensures Pow2(0) == 1 && Pow2(7) == 0x80 && Pow2(8) == 0x100
    ensures Pow2(23) == 0x80_0000 && Pow2(24) == 0x100_0000
    ensures Pow2(30) == 0x4000_0000 && Pow2(31) == 0x8000_0000 && Pow2(32) == 0x1_0000_0000
  {
    assert Pow2(8) == 0x100;
    Pow2Add(8, 8);
    Pow2Add(16, 8);
    Pow2Add(16, 16);
    Pow2Add(16, 7);
    Pow2Add(16, 15);
    Pow2Add(16, 14);
    Pow2Add(8, 7);
    Pow2Add(7, 7);
  }

  lemma {:induction false} Log2Bound(a: nat)
    requires 0 < a <= 0x8000_0000
    ensures Log2(a) <= 31
  {
    hide Pow2, Log2;
    Pow2Values();
    if 31 < Log2(a) {
      Pow2Monotone(32, Log2(a));
      assert false;
    }
  }

  /** The same with the quotient q and the remainder r given, in terms of the products p of q and s of j with u. */
  lemma Closest(a: nat, u: nat, q: nat, r: nat, j: int, p: int, s: int)
    requires p == q * u && s == j * u && a == p + r && r < u
    ensures j <= q - 1 ==> s <= p - u
    ensures j >= q + 2 ==> s >= p + 2 * u
    ensures j == q + 1 ==> s == p + u
    ensures j == q ==> s == p
  {
    Distribute(q, j, u);
    Distribute(q, 1, u);
    if j <= q - 1 {
      Scale(1, q - j, u);
    } else if j >= q + 2 {
      Scale(2, j - q, u);
      Distribute(j, q, u);
    }
  }

  lemma NearestByParts(a: nat, u: nat, q: nat, r: nat, j: int, p: int, s: int)
    requires p == q * u && s == j * u && a == p + r && r < u
    ensures var m := if u < 2 * r || (u == 2 * r && q % 2 == 1) then q + 1 else q;
            var t := if m == q then p else p + u;
            && t == m * u
            && Magnitude(t - a) <= Magnitude(s - a)
            && (Magnitude(t - a) == Magnitude(s - a) && m != j ==> m % 2 == 0)
            && 2 * Magnitude(t - a) <= u
  {
    Closest(a, u, q, r, j, p, s);
    Distribute(q, 1, u);
  }

  /** Of all multiples of u the rounded one is closest to a, and the even one of two that are equally close. */
  lemma NearestIsNearest(a: nat, u: nat, j: int)
    requires 0 < u
    ensures var m := Nearest(a, u);
            && Magnitude(m * u - a) <= Magnitude(j * u - a)
            && (Magnitude(m * u - a) == Magnitude(j * u - a) && m != j ==> m % 2 == 0)
            && 2 * Magnitude(m * u - a) <= u
  {
    Quotient(a, u);
    NearestByParts(a, u, a / u, a % u, j, a / u * u, j * u);
  }

  lemma QuotientBounds(a: nat, u: nat, low: nat, high: nat)
    requires 0 < u && low * u <= a < high * u
    ensures low <= Nearest(a, u) <= high
  {
    var q := a / u;
    Quotient(a, u);
    Distribute(q, 1, u);
    if q < low {
      Scale(q + 1, low, u);
    } else if high <= q {
      Scale(high, q, u);
    }
  }

  lemma {:induction false} SmallSignificand(a: nat)
    requires 0 < a && Log2(a) <= 23
    ensures 0x80_0000 <= Significand(a) < 0x100_0000
  {
    hide Pow2, Log2;
    var k := Log2(a);
    Pow2Values();
    Pow2Add(k, 23 - k);
    Pow2Add(k + 1, 23 - k);
    Scale(Pow2(k), a, Pow2(23 - k));
    Scale(a + 1, Pow2(k + 1), Pow2(23 - k));
    Distribute(a, 1, Pow2(23 - k));
  }

  lemma {:induction false} LargeSignificand(a: nat)
    requires 0 < a && 23 < Log2(a)
    ensures 0x80_0000 <= Significand(a) <= 0x100_0000
  {
    hide Pow2, Log2, Nearest;
    Pow2Values();
    Pow2Add(23, Log2(a) - 23);
    Pow2Add(24, Log2(a) - 23);
    QuotientBounds(a, Unit(a), 0x80_0000, 0x100_0000);
  }

  lemma {:induction false} SignificandBounds(a: nat)
    requires 0 < a <= 0x8000_0000
    ensures 0x80_0000 <= Significand(a) <= 0x100_0000 && Log2(a) <= 31
  {
    hide Significand, Pow2, Log2;
    Log2Bound(a);
    if Log2(a) <= 23 {
      SmallSignificand(a);
    } else {
      LargeSignificand(a);
    }
  }

  // ----- what IntToFloat makes of n

  /** The three fields of a pattern that is put together from a sign, an exponent and a significand. */
  lemma Fields(sign: nat, e: nat, m: nat)
    requires sign <= 1 && 0 < e && e + 1 < 0xFF && 0x80_0000 <= m <= 0x100_0000
    ensures var bits := sign * 0x8000_0000 + (e - 1) * 0x80_0000 + m;
            && bits < 0x1_0000_0000 && Negative(bits) == (sign == 1) && Finite(bits)
            && Exponent(bits) == (if m < 0x100_0000 then e else e + 1)
            && Fraction(bits) % 2 == m % 2
            && Scaled(bits) == m * Pow2(e - 1)
  {
    var bits := sign * 0x8000_0000 + (e - 1) * 0x80_0000 + m;
    assert bits / 0x80_0000 == sign * 0x100 + (if m < 0x100_0000 then e else e + 1);
    assert Fraction(bits) == if m < 0x100_0000 then m - 0x80_0000 else 0;
    assert Pow2(e) == 2 * Pow2(e - 1);
  }

  /** The integer that becomes of a magnitude is its significand, scaled. */
  lemma {:induction false} SignificandScaled(a: nat)
    requires 0 < a <= 0x8000_0000
    ensures Significand(a) * Pow2(Log2(a) + 126) == Rounded(a) * Pow2(149)
  {
    hide Pow2, Log2;
    var k := Log2(a);
    if k <= 23 {
      Nearest1(a);
      Pow2Add(23 - k, k + 126);
      Regroup(a, Pow2(23 - k), Pow2(k + 126));
    } else {
      Pow2Add(k - 23, 149);
      Regroup(Nearest(a, Unit(a)), Pow2(k - 23), Pow2(149));
    }
  }

  lemma Regroup(x: nat, y: nat, z: nat)
    ensures (x * y) * z == x * (y * z)
  {
  }

  lemma Nearest1(a: nat)
    ensures Nearest(a, 1) == a
  {
  }

  function SignedRounded(n: int32): int {
    if n < 0 then -(Rounded(Magnitude(n)) as int) else Rounded(Magnitude(n))
  }

  lemma Encodes(n: int32)
    ensures var bits := IntToFloat(n);
            && Finite(bits) && Scaled(bits) == Rounded(Magnitude(n)) * Pow2(149) && Negative(bits) == (n < 0)
            && (n != 0 ==> Fraction(bits) % 2 == Significand(Magnitude(n)) % 2)
  {
    hide Pow2, Log2, Significand;
    if n != 0 {
      var a := Magnitude(n);
      SignificandBounds(a);
      hide Scaled, Exponent, Fraction, Negative, Rounded;
      Fields(if n < 0 then 1 else 0, Log2(a) + 127, Significand(a));
      SignificandScaled(a);
    }
  }

  lemma {:induction false} RoundedClose(a: nat)
    requires 0 < a
    ensures 2 * Magnitude(Rounded(a) - a) <= Unit(a)
    ensures Rounded(a) == a <==> a % Unit(a) == 0
    ensures Log2(a) <= 23 ==> Rounded(a) == a
  {
    hide Pow2, Log2;
    var u := Unit(a);
    NearestIsNearest(a, u, 0);
    Quotient(a, u);
    if Rounded(a) == a {
      Multiple(Nearest(a, u), u);
    }
    if u == 1 {
      Nearest1(a);
    }
  }

  lemma UnitBound(a: nat, k: nat)
    requires 0 < a < Pow2(k + 24)
    ensures Unit(a) <= Pow2(k)
  {
    hide Pow2, Log2;
    if k + 24 <= Log2(a) {
      Pow2Monotone(k + 24, Log2(a));
    } else if 23 < Log2(a) {
      Pow2Monotone(Log2(a) - 23, k);
    }
  }

  /** Rounding stays between the powers of two around a. */
  lemma {:induction false} RoundedBetween(a: nat)
    requires 0 < a
    ensures Pow2(Log2(a)) <= Rounded(a) <= Pow2(Log2(a) + 1)
  {
    hide Pow2, Log2, Nearest;
    var k := Log2(a);
    RoundedClose(a);
    if 23 < k {
      Pow2Values();
      Pow2Add(23, k - 23);
      Pow2Add(24, k - 23);
      QuotientBounds(a, Unit(a), 0x80_0000, 0x100_0000);
      Scale(0x80_0000, Nearest(a, Unit(a)), Unit(a));
      Scale(Nearest(a, Unit(a)), 0x100_0000, Unit(a));
    }
  }

  lemma NearestMonotone(a: nat, b: nat, u: nat)
    requires 0 < u && a <= b
    ensures Nearest(a, u) <= Nearest(b, u)
  {
    Quotient(a, u);
    Quotient(b, u);
    if b / u < a / u {
      Scale(b / u + 1, a / u, u);
      Distribute(b / u, 1, u);
    }
  }

  lemma RoundedMonotone(a: nat, b: nat)
    requires a <= b
    ensures Rounded(a) <= Rounded(b)
  {
    hide Pow2, Log2, Nearest;
    if a != 0 {
      if Log2(a) < Log2(b) {
        RoundedBetween(a);
        RoundedBetween(b);
        Pow2Monotone(Log2(a) + 1, Log2(b));
      } else if Log2(b) < Log2(a) {
        Pow2Monotone(Log2(b) + 1, Log2(a));
      } else {
        NearestMonotone(a, b, Unit(a));
        Scale(Nearest(a, Unit(a)), Nearest(b, Unit(a)), Unit(a));
      }
    }
  }

  lemma {:induction false} Log2Unique(a: nat, k: nat)
    requires Pow2(k) <= a < 2 * Pow2(k)
    ensures Log2(a) == k
  {
    hide Log2;
    assert Pow2(k + 1) == 2 * Pow2(k);
    hide Pow2;
    if k < Log2(a) {
      Pow2Monotone(k + 1, Log2(a));
    } else if Log2(a) < k {
      Pow2Monotone(Log2(a) + 1, k);
    }
  }

  /** The largest magnitude that is not rounded up to 2^31. */
  lemma RoundedFits(a: nat)
    requires a <= 0x8000_0000
    ensures Rounded(a) < 0x8000_0000 <==> a <= 0x7FFF_FFBF
    ensures Rounded(a) <= 0x8000_0000
  {
    hide Log2, Pow2;
    Pow2Values();
    if 0x4000_0000 <= a < 0x8000_0000 {
      Log2Unique(a, 30);
    } else if a == 0x8000_0000 {
      Log2Unique(a, 31);
    } else {
      RoundedMonotone(a, 0x4000_0000);
      Log2Unique(0x4000_0000, 30);
    }
  }

  /**
   Reading an int32 as a float and the float as an int32: the result is defined for every n up to 2^31 - 65 and for no
   other, it is within 64 of n, and it is n exactly when n is a multiple of the distance between floats of its size.
   */
  lemma ThereAndBack(n: int32)
    ensures FloatToInt(IntToFloat(n)) == if n <= 0x7FFF_FFBF then Some(SignedRounded(n)) else None
    ensures Magnitude(SignedRounded(n) - n) <= 64
    ensures SignedRounded(n) == n <==> n == 0 || Magnitude(n) % Unit(Magnitude(n)) == 0
    ensures Magnitude(n) <= 0x100_0000 ==> SignedRounded(n) == n
  {
    hide Log2, Pow2, Rounded, IntToFloat, Scaled, Finite, Negative;
    var a := Magnitude(n);
    Encodes(n);
    Multiple(Rounded(a), Pow2(149));
    RoundedFits(a);
    RoundedZero();
    if 0 < a {
      RoundedClose(a);
      RoundedDistance(a);
    }
  }

  lemma RoundedZero()
    ensures Rounded(0) == 0
  {
  }

  lemma {:induction false} RoundedPower(k: nat)
    ensures Rounded(Pow2(k)) == Pow2(k)
  {
    var a := Pow2(k);
    hide Pow2, Log2;
    Log2Unique(a, k);
    RoundedClose(a);
    if 23 < k {
      Pow2Add(23, k - 23);
      Multiple(Pow2(23), Pow2(k - 23));
    }
  }

  lemma RoundedDistance(a: nat)
    requires 0 < a <= 0x8000_0000
    ensures Magnitude(Rounded(a) - a) <= 64
    ensures a <= 0x100_0000 ==> Rounded(a) == a
  {
    hide Log2, Pow2, Rounded, Unit;
    Pow2Values();
    if a == 0x8000_0000 {
      RoundedPower(31);
    } else if a == 0x100_0000 {
      RoundedPower(24);
    } else {
      RoundedClose(a);
      UnitBound(a, 7);
      if a < 0x100_0000 {
        UnitBound(a, 0);
      }
    }
  }

  lemma Monotone(m: int32, n: int32)
    requires m <= n
    ensures SignedRounded(m) <= SignedRounded(n)
  {
    hide Rounded;
    if m < 0 && n < 0 {
      RoundedMonotone(-(n as int), -(m as int));
    } else if 0 <= m {
      RoundedMonotone(m, n);
    }
  }

  // ----- IntToFloat against all floats

  /** A smaller exponent means a value below the power of two that is below a. */
  lemma SmallFloat(other: uint32, k: nat)
    requires Exponent(other) < k + 127
    ensures Scaled(other) < Pow2(k + 149)
  {
    hide Pow2;
    Pow2Values();
    var e, f := Exponent(other), Fraction(other);
    assert 0x80_0000 + f < 0x100_0000;
    if e == 0 {
      Pow2Monotone(24, k + 149);
    } else {
      Pow2Add(24, e - 1);
      Pow2Monotone(24 + (e - 1), k + 149);
      Below(0x80_0000 + f, 0x100_0000, Pow2(e - 1));
    }
  }

  /** A larger one, a multiple of the distance between floats where a lies. */
  lemma LargeFloat(other: uint32, k: nat) returns (j: nat)
    requires k + 127 <= Exponent(other)
    ensures Scaled(other) == j * Pow2(k + 126)
  {
    hide Pow2;
    var e, m := Exponent(other), 0x80_0000 + Fraction(other);
    j := m * Pow2(e - 1 - (k + 126));
    Pow2Add(e - 1 - (k + 126), k + 126);
    Regroup(m, Pow2(e - 1 - (k + 126)), Pow2(k + 126));
  }

  /** Distances are compared alike before and after scaling. */
  lemma ScaledDistance(a: int, b: int, c: nat, z: nat)
    requires 0 < z
    ensures Magnitude(a - c) <= Magnitude(b - c) ==> Magnitude(a * z - c * z) <= Magnitude(b * z - c * z)
    ensures Magnitude(a * z - c * z) == Magnitude(b * z - c * z) ==> Magnitude(a - c) == Magnitude(b - c)
  {
    Distribute(a, c, z);
    Distribute(b, c, z);
    MagnitudeScales(a - c, z);
    MagnitudeScales(b - c, z);
    var d, e := Magnitude(a - c), Magnitude(b - c);
    if d <= e {
      Scale(d, e, z);
    }
    if d < e {
      Below(d, e, z);
    } else if e < d {
      Below(e, d, z);
    }
  }

  lemma MagnitudeScales(d: int, z: nat)
    ensures Magnitude(d * z) == Magnitude(d) * z
  {
    if d < 0 {
      Distribute(0, -d, z);
      Scale(0, -d, z);
    } else {
      Scale(0, d, z);
    }
  }

  predicate Beats(r: nat, y: nat, x: nat, even: bool) {
    Magnitude(r - x) <= Magnitude(y - x) && (Magnitude(r - x) == Magnitude(y - x) && r != y ==> even)
  }

  /** The comparison with a multiple j of the unit u, in units of 1/p. */
  lemma BeatsMultiple(a: nat, u: nat, j: nat, p: nat)
    requires 0 < u && 0 < p
    ensures Beats(Nearest(a, u) * u * p, j * u * p, a * p, Nearest(a, u) % 2 == 0)
  {
    hide Nearest;
    var m := Nearest(a, u);
    NearestIsNearest(a, u, j);
    ScaledDistance(m * u, j * u, a, p);
  }

  lemma {:induction false} NearestMagnitude(a: nat, other: uint32)
    requires 0 < a && 23 < Log2(a)
    ensures Beats(Rounded(a) * Pow2(149), Scaled(other), a * Pow2(149), Nearest(a, Unit(a)) % 2 == 0)
  {
    hide Pow2, Log2, Nearest, Scaled, Exponent;
    var k, u, p := Log2(a), Unit(a), Pow2(149);
    if k + 127 <= Exponent(other) {
      var j := LargeFloat(other, k);
      Pow2Add(k - 23, 149);
      Regroup(j, u, p);
      BeatsMultiple(a, u, j, p);
    } else {
      SmallFloat(other, k);
      Pow2Values();
      Pow2Add(23, k - 23);
      Pow2Add(k, 149);
      BeatsMultiple(a, u, 0x80_0000, p);
      Scale(Pow2(k), a, p);
    }
  }

  /** No float is closer to n than the one it is converted to, and on a tie that one's significand is even. */
  lemma NearestFloat(n: int32, other: uint32)
    requires Finite(other)
    ensures var t, e, o := n * Pow2(149), SignedScaled(IntToFloat(n)), SignedScaled(other);
            && Magnitude(e - t) <= Magnitude(o - t)
            && (Magnitude(e - t) == Magnitude(o - t) && e != o ==> Fraction(IntToFloat(n)) % 2 == 0)
  {
    hide Pow2, Log2, Nearest, Scaled, Rounded, IntToFloat, Fraction, Exponent, Negative;
    var a := Magnitude(n);
    Encodes(n);
    MagnitudeScales(n, Pow2(149));
    Scale(0, a, Pow2(149));
    if a == 0 {
      RoundedZero();
    } else if Log2(a) <= 23 {
      RoundedClose(a);
    } else {
      NearestMagnitude(a, other);
      NearestMagnitude(a, 0);
      ZeroScaled();
    }
  }

  lemma ZeroScaled()
    ensures Scaled(0) == 0
  {
    hide Pow2;
  }

  // ----- the conversions as relations between a pattern and a number

  /** i is the value of the pattern, truncated towards zero. */
  predicate Truncates(bits: uint32, i: int) {
    && Magnitude(i) * Pow2(149) <= Scaled(bits) < (Magnitude(i) + 1) * Pow2(149)
    && (i != 0 ==> (Negative(bits) <==> i < 0))
  }

  lemma {:induction false} FloatToIntExactly(bits: uint32, i: int32)
    ensures FloatToInt(bits) == Some(i) <==> Finite(bits) && Truncates(bits, i)
  {
    hide Pow2, Scaled, Finite, Negative;
    var p := Pow2(149);
    Quotient(Scaled(bits), p);
    Distribute(Scaled(bits) / p, 1, p);
    Distribute(Magnitude(i), 1, p);
    if Truncates(bits, i) {
      QuotientIs(Scaled(bits), p, Magnitude(i));
    }
  }

  /** The pattern stands for exactly this integer. */
  predicate StandsFor(bits: uint32, n: int) {
    Finite(bits) && SignedScaled(bits) == n * Pow2(149)
  }

  /** No finite float is closer to n than the pattern's, and on a tie its significand is even. */
  ghost predicate IsNearest(n: int, bits: uint32) {
    && Finite(bits)
    && forall other: uint32 :: Finite(other) ==>
         var t, e, o := n * Pow2(149), SignedScaled(bits), SignedScaled(other);
         && Magnitude(e - t) <= Magnitude(o - t)
         && (Magnitude(e - t) == Magnitude(o - t) && e != o ==> Fraction(bits) % 2 == 0)
  }

  lemma {:induction false} IntToFloatNearest(n: int32)
    ensures IsNearest(n, IntToFloat(n)) && StandsFor(IntToFloat(n), SignedRounded(n))
  {
    hide Pow2, Log2, Scaled, Rounded, IntToFloat, Fraction, Exponent, Negative;
    Encodes(n);
    var r, p := Rounded(Magnitude(n)), Pow2(149);
    Distribute(0, r, p);
    hide Finite, SignedScaled;
    forall other: uint32 | Finite(other) ensures
        var t, e, o := n * p, SignedScaled(IntToFloat(n)), SignedScaled(other);
        && Magnitude(e - t) <= Magnitude(o - t)
        && (Magnitude(e - t) == Magnitude(o - t) && e != o ==> Fraction(IntToFloat(n)) % 2 == 0) {
      NearestFloat(n, other);
    }
  }

  /** The number that truncation makes of a pattern that stands for an integer is this integer. */
  lemma {:induction false} TruncatesWhole(bits: uint32, n: int, i: int)
    requires StandsFor(bits, n)
    ensures Truncates(bits, i) <==> i == n
  {
    hide Pow2, Scaled, Finite;
    var p := Pow2(149);
    MagnitudeScales(n, p);
    Scale(0, Magnitude(n), p);
    if Magnitude(i) < Magnitude(n) {
      Scale(Magnitude(i) + 1, Magnitude(n), p);
    } else {
      Below(Magnitude(n), Magnitude(n) + 1, p);
      if Magnitude(n) < Magnitude(i) {
        Below(Magnitude(n), Magnitude(i), p);
      }
    }
    if n != 0 {
      Below(0, Magnitude(n), p);
    }
  }

  /** Some numbers by their patterns: 1, -2, and 2^24 + 1, which lies in the middle between two floats. */
  lemma {:induction false} KnownFloats()
    ensures IntToFloat(1) == 0x3F80_0000 && IntToFloat(-2) == 0xC000_0000 && IntToFloat(0x100_0001) == 0x4B80_0000
  {
    assert Pow2(0) == 1 && Pow2(1) == 2;
    Pow2Values();
    Pow2Add(22, 1);
    hide Pow2;
    Log2Unique(1, 0);
    Log2Unique(2, 1);
    Log2Unique(0x100_0001, 24);
    hide Log2;
  }

  /** Below 2^24 truncation takes away fraction bits. */
  lemma {:induction false} TruncatesFraction(bits: uint32, e: nat, m: nat, i: int)
    requires Exponent(bits) == e && 0 < e <= 150 && m == 0x80_0000 + Fraction(bits)
    requires i != 0 ==> (Negative(bits) <==> i < 0)
    requires Magnitude(i) * Pow2(150 - e) <= m < (Magnitude(i) + 1) * Pow2(150 - e)
    ensures Truncates(bits, i)
  {
    hide Pow2, Exponent, Fraction, Negative;
    var q, p := Pow2(150 - e), Pow2(e - 1);
    Pow2Add(150 - e, e - 1);
    Regroup(Magnitude(i), q, p);
    Regroup(Magnitude(i) + 1, q, p);
    Scale(Magnitude(i) * q, m, p);
    Below(m, (Magnitude(i) + 1) * q, p);
  }

  /** From 2^23 on all floats are integers. */
  lemma {:induction false} WholeFloat(bits: uint32, e: nat, m: nat)
    requires Exponent(bits) == e && 150 <= e < 0xFF && m == 0x80_0000 + Fraction(bits) && !Negative(bits)
    ensures StandsFor(bits, m * Pow2(e - 150))
  {
    hide Pow2, Exponent, Fraction, Negative;
    Pow2Add(e - 150, 149);
    Regroup(m, Pow2(e - 150), Pow2(149));
  }

  /** Some patterns by their numbers: 1.5, -0.5 and 2^31. */
  lemma {:induction false} KnownIntegers()
    ensures FloatToInt(0x3FC0_0000) == Some(1) && FloatToInt(0xBF00_0000) == Some(0) && FloatToInt(0x4F00_0000) == None
  {
    Pow2Values();
    hide Pow2, Truncates, FloatToInt, StandsFor, Scaled;
    TruncatesFraction(0x3FC0_0000, 127, 0xC0_0000, 1);
    TruncatesFraction(0xBF00_0000, 126, 0x80_0000, 0);
    WholeFloat(0x4F00_0000, 158, 0x80_0000);
    FloatToIntExactly(0x3FC0_0000, 1);
    FloatToIntExactly(0xBF00_0000, 0);
    if FloatToInt(0x4F00_0000).Some? {
      var i := FloatToInt(0x4F00_0000).value;
      FloatToIntExactly(0x4F00_0000, i);
      TruncatesWhole(0x4F00_0000, 0x8000_0000, i);
    }
  }

  lemma StandsForFinite(bits: uint32, n: int)
    requires StandsFor(bits, n)
    ensures Finite(bits)
  {
  }

  lemma {:induction false} RoundedRange(n: int32)
    ensures -0x8000_0000 <= SignedRounded(n) <= 0x8000_0000
    ensures SignedRounded(n) < 0x8000_0000 <==> n <= 0x7FFF_FFBF
  {
    hide Rounded;
    RoundedFits(Magnitude(n));
  }
}
