/**
 * The printed decimal against step 5 of Number::toString in ECMA-262 (section 6.1.6.1.20): among
 * all decimals with as few digits as possible that round to the double, at whatever place, the
 * printed one is closest to it, and even if another one is equally close.
 *
 * Digit generation only compares decimals at one place. A decimal of as few digits at a finer
 * place can only compete where a power of ten and something a tenth smaller round to the same
 * double, which happens for the second smallest double alone, and there the power of ten wins.
 */
module Closest {
  import opened Powers
  import opened Decimals
  import opened Doubles
  import opened Conversion

  /** d * 10^q is no farther from `m` than e * 10^p, and an equally near one makes `d` even. */
  ghost predicate NoFarther(m: nat, d: int, q: int, e: int, p: int) {
    && Abs(Dec(d, q) - Value(m)) <= Abs(Dec(e, p) - Value(m))
    && (Abs(Dec(d, q) - Value(m)) == Abs(Dec(e, p) - Value(m)) && Dec(d, q) != Dec(e, p) ==> d % 2 == 0)
  }

  /** e * 10^p is any decimal of as few digits as are printed. */
  lemma ClosestOfAll(m: NonZero, e: nat, p: int)
    ensures var (ds, n) := ShortestDecimal(m);
      e < Pow(10, |ds|) && Reads(m, e, p) ==> NoFarther(m, Number(ds), n - |ds|, e, p)
  {
    hide Value, Upper, Dec, Pow;
    var (ds, n) := ShortestDecimal(m);
    var d, k, q := Number(ds), |ds|, n - |ds|;
    if e >= Pow(10, k) || !Reads(m, e, p) {
    } else if p >= q {
      DecShift(e, q, p - q);
      assert Reads(m, e * Pow(10, p - q), q);
      assert NearerDecimal(m, d, e * Pow(10, p - q), q);
    } else {
      FinerDecimal(m, n, k, e, p);
      assert k == 1 by {
        if k > 1 {
          PowMonotone(10, 1, k - 1);
          OneDigit(1);
          assert false;
        }
      }
      PowerOfTenInCell(m, n - 1, e, p);
      NumberLead(ds);
      PowPositive(10, 0);
      OnlyOne(d);
      SecondSmallest(e, p);
    }
  }

  /** A decimal of `k` digits at a finer place puts a power of ten into the rounding interval. */
  lemma FinerDecimal(m: NonZero, n: int, k: nat, e: nat, p: int)
    requires k > 0 && e < Pow(10, k) && p < n - k
    requires Positioned(m, n) && Reads(m, e, p)
    ensures Reads(m, 1, n - 1)
    ensures k == 1 ==> 10.0 * Dec(e, p) <= 9.0 * Ten(n - 1)
  {
    hide Value, Upper, Pow, RealPow;
    var t := n - k - 1 - p;
    RealPowPositive(10.0, p);
    BelowPower(e, k, p, n);
    AboveMonotone(Dec(e, p), Ten(n - 1), m - 1);
    assert Dec(1, n - 1) == Ten(n - 1);
    if k == 1 {
      OneDigit(1);
      NineTenths(e, p, n);
    }
  }

  lemma BelowPower(e: nat, k: nat, p: int, n: int)
    requires e < Pow(10, k) && p < n - k
    ensures Dec(e, p) < Ten(n - 1)
  {
    hide Pow, RealPow;
    DecMonotone(e, Pow(10, k), p);
    DecShift(1, p, k);
    assert Dec(1, p + k) == Ten(p + k);
    if p + k < n - 1 {
      RealPowStrict(10.0, p + k, n - 1);
    }
  }

  lemma NineTenths(e: nat, p: int, n: int)
    requires e <= 9 && p <= n - 2
    ensures 10.0 * Dec(e, p) <= 9.0 * Ten(n - 1)
  {
    hide RealPow;
    RealPowPositive(10.0, p);
    RealPowStep(10.0, n - 2);
    if p < n - 2 {
      RealPowStrict(10.0, p, n - 2);
    }
    ScaleUp(e as real, Ten(p), Ten(n - 2));
  }

  lemma ScaleUp(e: real, x: real, y: real)
    requires 0.0 <= e <= 9.0 && 0.0 < x <= y
    ensures e * x <= 9.0 * y
  {
    assert e * x <= 9.0 * x;
  }

  // ---------- only the smallest doubles have such wide intervals ----------

  /** An interval that reaches from x to above 10/9 x belongs to one of the nine smallest doubles. */
  lemma WideIsTiny(m: NonZero, x: real, y: real)
    requires InCell(x, m) && InCell(y, m) && 10.0 * x <= 9.0 * y
    ensures m <= 9
  {
    hide Value, Upper, RealPow, DecodeFloatParts;
    var p, q := DecodeFloatParts(m - 1), DecodeFloatParts(m);
    var v, u, g := Value(m), Two(q.fExp), Two(p.fExp);
    HalfGap(m - 1);
    HalfGap(m);
    NextParts(m - 1);
    RealPowPositive(2.0, p.fExp);
    RealPowStep(2.0, p.fExp);
    assert 0.0 < g <= u;
    assert x >= v - g / 2.0 && y <= v + u / 2.0;
    if m >= 10 {
      ValueOfDouble(m);
      TenUnits(m);
      AtLeastTen(q.fMant, u, v);
      NarrowCell(x, y, v, u, g);
    }
  }

  lemma HalfGap(m: nat)
    ensures var u := Two(DecodeFloatParts(m).fExp);
      Upper(m) == Value(m) + u / 2.0 && Value(m + 1) == Upper(m) + u / 2.0
  {
    hide Value, RealPow, DecodeFloatParts;
    Gap(m);
  }

  lemma NarrowCell(x: real, y: real, v: real, u: real, g: real)
    requires 0.0 < g <= u && v >= 10.0 * u && x >= v - g / 2.0 && y <= v + u / 2.0
    ensures 10.0 * x > 9.0 * y
  {
  }

  lemma ValueOfDouble(m: nat)
    ensures var p := DecodeFloatParts(m); Value(m) == p.fMant as real * Two(p.fExp)
  {
  }

  lemma TenUnits(m: nat)
    requires m >= 10
    ensures DecodeFloatParts(m).fMant >= 10
  {
    if m < HIDDEN_BIT {
      assert m % HIDDEN_BIT == m && m / HIDDEN_BIT == 0;
    }
  }

  lemma AtLeastTen(f: nat, u: real, v: real)
    requires f >= 10 && u > 0.0 && v == f as real * u
    ensures v >= 10.0 * u
  {
    ScaleOrder(10.0, f as real, u);
  }

  lemma TinyValue(m: nat)
    requires m <= 10
    ensures Value(m) == m as real * (2.0 * Two(-1075))
  {
    hide RealPow;
    assert m % HIDDEN_BIT == m && m / HIDDEN_BIT == 0;
    RealPowStep(2.0, -1075);
  }

  // ---------- 10^-323 among the smallest doubles ----------

  /** From 413 * 2^54 < 5^27 < 414 * 2^54. */
  lemma FiveTo324()
    ensures 310 * Pow(2, 744) < Pow(5, 324) < 320 * Pow(2, 744)
  {
    hide Pow;
    FiveTo27();
    PowOfPow(5, 27, 12);
    PowOfPow(2, 54, 12);
    PowAdd(2, 96, 648);
    assert 54 * 12 == 648 && 27 * 12 == 324;
    PowPositive(2, 54);
    TwelfthBounds(Pow(5, 27), Pow(2, 54));
    assert (310 * Pow(2, 96)) * Pow(2, 648) == 310 * (Pow(2, 96) * Pow(2, 648));
    assert (320 * Pow(2, 96)) * Pow(2, 648) == 320 * (Pow(2, 96) * Pow(2, 648));
  }

  lemma TwelfthBounds(p: nat, b: nat)
    requires 413 * b <= p <= 414 * b && b > 0
    ensures (310 * Pow(2, 96)) * Pow(b, 12) < Pow(p, 12) < (320 * Pow(2, 96)) * Pow(b, 12)
  {
    hide Pow;
    PowOfProduct(413, b, 12);
    PowOfProduct(414, b, 12);
    PowBaseMonotone(413 * b, p, 12);
    PowBaseMonotone(p, 414 * b, 12);
    TwelfthPowers();
    PowPositive(b, 12);
    MulStrict(310 * Pow(2, 96), Pow(413, 12), Pow(b, 12));
    MulStrict(Pow(414, 12), 320 * Pow(2, 96), Pow(b, 12));
  }

  lemma FiveTo27()
    ensures 413 * Pow(2, 54) < Pow(5, 27) < 414 * Pow(2, 54)
  {
    assert Pow(5, 9) == 1953125;
    PowAdd(5, 9, 9);
    PowAdd(5, 9, 18);
    PowersOfTwo();
    PowAdd(2, 2, 52);
    assert Pow(2, 2) == 4;
  }

  lemma TwelfthPowers()
    ensures 310 * Pow(2, 96) < Pow(413, 12) && Pow(414, 12) < 320 * Pow(2, 96)
  {
    hide Pow;
    assert Pow(413, 3) == 70444997 by { Cube(413); }
    PowAdd(413, 3, 3);
    PowAdd(413, 6, 6);
    assert Pow(414, 3) == 70957944 by { Cube(414); }
    PowAdd(414, 3, 3);
    PowAdd(414, 6, 6);
    assert Pow(2, 12) == 4096 by { TwoTo12(); }
    PowAdd(2, 12, 12);
    PowAdd(2, 24, 24);
    PowAdd(2, 48, 48);
  }

  lemma Cube(b: nat)
    ensures Pow(b, 3) == b * b * b
  {
    assert Pow(b, 0) == 1 && Pow(b, 1) == b * Pow(b, 0) && Pow(b, 2) == b * Pow(b, 1);
    assert Pow(b, 3) == b * Pow(b, 2) == b * (b * b);
  }

  lemma TwoTo12()
    ensures Pow(2, 12) == 4096
  {
  }

  /** 4 * 10^323 < 2^1075 < (128/31) * 10^323. */
  lemma TenTo323()
    ensures 4 * Pow(10, 323) < Pow(2, 1075) && 31 * Pow(2, 1075) < 128 * Pow(10, 323)
  {
    hide Pow;
    FiveTo324();
    PowOfProduct(2, 5, 323);
    PowAdd(5, 1, 323);
    assert Pow(5, 1) == 5 && Pow(2, 8) == 256 by { SmallOnes(); }
    PowAdd(2, 744, 323);
    PowAdd(2, 8, 1067);
    var a, f := Pow(2, 323), Pow(5, 323);
    PowPositive(2, 323);
    var t := Pow(2, 744);
    assert 5 * Pow(10, 323) == Pow(5, 324) * a by { FactorFive(a, f); }
    MulStrict(310 * t, Pow(5, 324), a);
    MulStrict(Pow(5, 324), 320 * t, a);
    assert (310 * t) * a == 310 * (t * a) && (320 * t) * a == 320 * (t * a);
  }

  lemma SmallOnes()
    ensures Pow(5, 1) == 5 && Pow(2, 8) == 256
  {
  }

  lemma FactorFive(a: nat, f: nat)
    ensures 5 * (a * f) == (5 * f) * a
  {
  }

  /** The same for the reciprocals. */
  lemma TenToMinus323()
    ensures 0.0 < 4.0 * Two(-1075) < Ten(-323) && 31.0 * Ten(-323) < 128.0 * Two(-1075)
  {
    hide Pow, RealPow;
    TenTo323();
    RealPowNat(2, 1075);
    RealPowNat(10, 323);
    RealPowInverse(2.0, 1075);
    RealPowInverse(10.0, 323);
    RealPowPositive(2.0, -1075);
    RealPowPositive(10.0, -323);
    var x, y := Pow(2, 1075) as real, Pow(10, 323) as real;
    assert 4.0 * y < x && 31.0 * x < 128.0 * y;
    InvertBounds(x, Two(-1075), y, Ten(-323));
  }

  lemma InvertBounds(x: real, h: real, y: real, t: real)
    requires x * h == 1.0 && y * t == 1.0 && h > 0.0 && t > 0.0
    requires 4.0 * y < x && 31.0 * x < 128.0 * y
    ensures 4.0 * h < t && 31.0 * t < 128.0 * h
  {
    var c := h * t;
    assert c > 0.0;
    assert x * c == t && y * c == h by {
      assert x * (h * t) == (x * h) * t;
      assert y * (h * t) == (y * t) * h;
    }
    ScaleOrder(4.0 * y, x, c);
    ScaleOrder(31.0 * x, 128.0 * y, c);
  }

  /** Only the second smallest double has a power of ten and something a tenth smaller in its interval. */
  lemma PowerOfTenInCell(m: NonZero, j: int, e: nat, p: int)
    requires Reads(m, 1, j) && Reads(m, e, p) && 10.0 * Dec(e, p) <= 9.0 * Ten(j)
    ensures m == 2 && j == -323
  {
    hide Value, Upper, RealPow;
    assert Dec(1, j) == Ten(j);
    WideIsTiny(m, Dec(e, p), Ten(j));
    TinyUpper(m - 1);
    TinyUpper(m);
    TenToMinus323();
    var h, lo, hi := Two(-1075), (2 * m - 1) as real, (2 * m + 1) as real;
    assert lo * h <= Ten(j) <= hi * h;
    RealPowStep(10.0, -324);
    RealPowStep(10.0, -323);
    if j < -323 {
      if j < -324 { RealPowStrict(10.0, j, -324); }
      AboveFactor(lo, 1.0, h, Ten(j));
    } else if j > -323 {
      if j > -322 { RealPowStrict(10.0, -322, j); }
      BelowFactor(hi, 19.0, h, Ten(j));
    } else {
      if lo >= 5.0 {
        AboveFactor(lo, 5.0, h, Ten(j));
      }
      if hi <= 3.0 {
        BelowFactor(hi, 3.0, h, Ten(j));
      }
    }
  }

  lemma AboveFactor(lo: real, a: real, h: real, t: real)
    requires lo * h <= t && a <= lo && h > 0.0
    ensures a * h <= t
  {
    ScaleOrder(a, lo, h);
  }

  lemma BelowFactor(hi: real, b: real, h: real, t: real)
    requires t <= hi * h && hi <= b && h > 0.0
    ensures t <= b * h
  {
    ScaleOrder(hi, b, h);
  }

  lemma TinyUpper(m: nat)
    requires m <= 9
    ensures Upper(m) == (2 * m + 1) as real * Two(-1075)
  {
    hide Value, RealPow;
    TinyValue(m);
    TinyValue(m + 1);
    MiddleOf(m as real, Two(-1075));
  }

  lemma MiddleOf(a: real, h: real)
    ensures (a * (2.0 * h) + (a + 1.0) * (2.0 * h)) / 2.0 == (2.0 * a + 1.0) * h
  {
  }

  lemma OnlyOne(d: nat)
    requires Reads(2, d, -323) && d >= 1
    ensures d == 1
  {
    hide Value, RealPow;
    TinyValue(2);
    TinyValue(3);
    TenToMinus323();
    if d >= 2 {
      ScaleOrder(2.0, d as real, Ten(-323));
    }
  }

  lemma SecondSmallest(e: nat, p: int)
    requires 10.0 * Dec(e, p) <= 9.0 * Ten(-323)
    ensures NoFarther(2, 1, -323, e, p)
  {
    hide Value, RealPow;
    TinyValue(2);
    TenToMinus323();
    assert Dec(1, -323) == Ten(-323);
  }
}
