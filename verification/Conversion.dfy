/**
 * The decimal a double is printed as: the shortest one in its rounding
 * interval, nearest to it at its last place, ties to even.
 */
module Conversion {
  import opened Powers
  import opened Decimals
  import opened Doubles
  import opened Shortest

  /** Nonzero finite magnitudes: the inputs of digit generation. */
  type NonZero = m: nat | 0 < m < INFINITE witness 1

  /** e * 10^q rounds to `m`. */
  ghost predicate Reads(m: nat, e: int, q: int) {
    InCell(Dec(e, q), m)
  }

  ghost predicate NearerDecimal(m: nat, d: int, e: int, q: int) {
    && Abs(Dec(d, q) - Value(m)) <= Abs(Dec(e, q) - Value(m))
    && (Abs(Dec(d, q) - Value(m)) == Abs(Dec(e, q) - Value(m)) && d != e ==> d % 2 == 0)
  }

  /** 10^n is the first power of ten above the rounding interval. */
  ghost predicate Positioned(m: nat, n: int) {
    AtOrBelow(Ten(n - 1), m) && !AtOrBelow(Ten(n), m)
  }

  /** 0.ds * 10^n is the decimal that the double of magnitude `m` is printed as. */
  ghost predicate IsShortest(m: nat, ds: seq<nat>, n: int) {
    && Normalized(ds)
    && Positioned(m, n)
    && ShortestAndNearest(m, Number(ds), |ds|, n - |ds|)
  }

  /** d * 10^q rounds to `m`, no decimal of fewer than `k` digits does, and none at this place is nearer. */
  ghost predicate ShortestAndNearest(m: nat, d: nat, k: nat, q: int)
    requires k > 0
  {
    && Reads(m, d, q)
    // fewer significant digits never suffice, whatever the exponent
    && (forall e: nat, p: int | e < Pow(10, k - 1) :: !Reads(m, e, p))
    // an exact tie between two multiples of the last place is resolved to the even one
    && (forall e: int | Reads(m, e, q) :: NearerDecimal(m, d, e, q))
  }

  /** No multiple of a place coarser than the `k`th after the point rounds to `m`. */
  ghost predicate NoneCoarser(m: nat, n: int, k: nat) {
    forall q: int, f: int | n - k < q <= n :: !Reads(m, f, q)
  }

  /** All that digit generation asks of the floating-point estimate `k`: it is at most one too low. */
  ghost predicate Admissible(m: nat, k: int) {
    !AtOrBelow(Ten(k + 1), m)
  }

  function Prepare(m: NonZero, k: int): (r: (Scaled, int))
    ensures Positive(r.0)
  {
    var p := DecodeFloatParts(m);
    InitShape(m);
    ScaleShape(InitScaled(p), k);
    var (sc, n) := HighFixup(ScaleByPower10(InitScaled(p), k), p.isEven, k);
    LowFixupPositive(sc, p.isEven, n);
    LowFixup(sc, p.isEven, n)
  }

  function Generate(m: NonZero, k: int): (seq<nat>, int) {
    var (sc, n) := Prepare(m, k);
    (Extract(sc, DecodeFloatParts(m).isEven), n)
  }

  // ---------- what a scaled state stands for ----------

  /** x/s * 10^n == y. */
  ghost predicate Stands(x: int, s: nat, n: int, y: real) {
    x as real * Ten(n) == y * s as real
  }

  /** In units of 10^n the state is the double `m` with its rounding interval. */
  ghost predicate Represents(sc: Scaled, m: nat, n: int)
    requires m > 0
  {
    && Positive(sc) && WideEnough(sc)
    && Stands(sc.r, sc.s, n, Value(m))
    && Stands(sc.r + sc.mPlus, sc.s, n, Upper(m))
    && Stands(sc.r - sc.mMinus, sc.s, n, Upper(m - 1))
  }

  /** The uniform shape behind the four branches of initialization. */
  lemma InitShape(m: nat)
    requires m > 0
    ensures var p := DecodeFloatParts(m);
      var sc := InitScaled(p);
      && Positive(sc)
      && sc.r == 2 * p.fMant * sc.mPlus
      && sc.mPlus == (if p.lowerBoundary then 2 * sc.mMinus else sc.mMinus)
      && sc.s as real * Two(p.fExp) == 2.0 * sc.mPlus as real
  {
    var p := DecodeFloatParts(m);
    var e := p.fExp;
    var a := if e >= 0 then e else -e;
    PowPositive(2, a);
    RealPowNat(2, a);
    RealPowInverse(2.0, e);
    assert Pow(2, a + 1) == 2 * Pow(2, a);
    assert Pow(2, a + 2) == 2 * Pow(2, a + 1);
    assert Pow(2, 1) == 2 && Pow(2, 2) == 4;
    FactorOut(p.fMant, Pow(2, a));
  }

  lemma FactorOut(f: nat, t: nat)
    ensures f * (2 * t) == 2 * f * t && f * (2 * (2 * t)) == 2 * f * (2 * t)
  {
  }

  /** Below a power of two the gap is half as wide. */
  lemma LowerGap(m: nat)
    requires m > 0
    ensures var p := DecodeFloatParts(m);
      Value(m) - Value(m - 1) == Two(if p.lowerBoundary then p.fExp - 1 else p.fExp)
  {
    hide Value;
    Gap(m - 1);
    var p, q := DecodeFloatParts(m), DecodeFloatParts(m - 1);
    if p.mantissa == 0 {
      assert q.biasedExp == p.biasedExp - 1;
    } else {
      assert q.biasedExp == p.biasedExp;
    }
  }

  lemma ParityOfSignificand(m: nat)
    ensures DecodeFloatParts(m).isEven <==> m % 2 == 0
  {
  }

  lemma InitRepresents(m: NonZero)
    ensures Represents(InitScaled(DecodeFloatParts(m)), m, 0)
  {
    hide Value, InitScaled, RealPow;
    var p := DecodeFloatParts(m);
    var sc := InitScaled(p);
    InitShape(m);
    InitWide(m);
    Gap(m);
    LowerGap(m);
    RealPowStep(2.0, p.fExp - 1);
    RealPowZero(10.0);
    ValueOfParts(m);
    var f, t, s, plus := p.fMant as real, Two(p.fExp), sc.s as real, sc.mPlus as real;
    CastMul(2 * p.fMant, sc.mPlus);
    var below := Value(m - 1) - Value(m);
    assert below == if p.lowerBoundary then -t / 2.0 else -t;
    BelowScaled(t, s, below, p.lowerBoundary);
    ScaledEnds(f, t, s, plus, Value(m), t, 2.0 * plus);
    ScaledEnds(f, t, s, plus, Value(m), below, -2.0 * sc.mMinus as real);
  }

  lemma ValueOfParts(m: nat)
    ensures Value(m) == DecodeFloatParts(m).fMant as real * Two(DecodeFloatParts(m).fExp)
  {
  }

  lemma BelowScaled(t: real, s: real, below: real, half: bool)
    requires below == if half then -t / 2.0 else -t
    ensures below * s == if half then -(s * t) / 2.0 else -(s * t)
  {
  }

  lemma ScaledEnds(f: real, t: real, s: real, plus: real, v: real, gap: real, g: real)
    requires v == f * t && s * t == 2.0 * plus
    requires gap * s == g
    ensures (2.0 * f) * plus == v * s
    ensures (2.0 * f) * plus + g / 2.0 == ((v + (v + gap)) / 2.0) * s
  {
    calc {
      v * s;
      f * t * s;
      f * (s * t);
      (2.0 * f) * plus;
    }
    calc {
      ((v + (v + gap)) / 2.0) * s;
      (v + gap / 2.0) * s;
      v * s + (gap / 2.0) * s;
      v * s + (gap * s) / 2.0;
    }
  }

  lemma InitWide(m: NonZero)
    ensures WideEnough(InitScaled(DecodeFloatParts(m)))
  {
    InitShape(m);
    var p := DecodeFloatParts(m);
    var sc := InitScaled(p);
    MulMonotone(2 * p.fMant, 0x40_0000_0000_0000, sc.mPlus, sc.mPlus);
  }

  // ---------- scaling and fixups ----------

  lemma StandsScaled(x: int, s: nat, n: int, y: real, a: nat, b: nat, p: int)
    requires Stands(x, s, n, y) && a as real * Ten(p) == b as real * Ten(n)
    ensures Stands(x * a, s * b, p, y)
  {
    hide RealPow;
    CastMul(x, a);
    CastMul(s, b);
    var xr, ar, br, sr := x as real, a as real, b as real, s as real;
    calc {
      (xr * ar) * Ten(p);
      xr * (ar * Ten(p));
      xr * (br * Ten(n));
      (xr * Ten(n)) * br;
      (y * sr) * br;
      y * (sr * br);
    }
  }

  lemma EnlargedRepresents(sc: Scaled, m: NonZero, n: int, t: nat)
    requires Represents(sc, m, n)
    ensures Represents(Enlarged(sc, Pow(10, t)), m, n - t)
  {
    hide Value, Upper, Stands, RealPow;
    var p := Pow(10, t);
    PowPositive(10, t);
    RealPowNat(10, t);
    RealPowAdd(10.0, t, n - t);
    StandsScaled(sc.r, sc.s, n, Value(m), p, 1, n - t);
    StandsScaled(sc.r + sc.mPlus, sc.s, n, Upper(m), p, 1, n - t);
    StandsScaled(sc.r - sc.mMinus, sc.s, n, Upper(m - 1), p, 1, n - t);
    EnlargedWide(sc, p);
    assert (sc.r - sc.mMinus) * p == sc.r * p - sc.mMinus * p;
  }

  lemma EnlargedWide(sc: Scaled, p: nat)
    requires WideEnough(sc) && Positive(sc) && p > 0
    ensures WideEnough(Enlarged(sc, p)) && Positive(Enlarged(sc, p))
    ensures (sc.r + sc.mPlus) * p == sc.r * p + sc.mPlus * p
  {
    SumTimes(sc.mPlus, sc.mMinus, p);
    SumTimes(sc.r, sc.mPlus, p);
    MulStrict(sc.r + sc.mPlus, (sc.mPlus + sc.mMinus) * 0x2386F26FC10000, p);
    ConstantTimes(sc.mPlus + sc.mMinus, p);
    MulAtLeast(sc.mPlus, p);
    MulAtLeast(sc.mMinus, p);
  }

  lemma SumTimes(x: nat, y: nat, p: nat)
    ensures (x + y) * p == x * p + y * p
  {
  }

  lemma ConstantTimes(w: nat, p: nat)
    ensures (w * 0x2386F26FC10000) * p == (w * p) * 0x2386F26FC10000
  {
  }

  lemma GrownDenominator(sc: Scaled, m: NonZero, n: int, t: nat)
    requires Represents(sc, m, n)
    ensures Represents(sc.(s := sc.s * Pow(10, t)), m, n + t)
  {
    hide Value, Upper, Stands, RealPow;
    var p := Pow(10, t);
    PowPositive(10, t);
    RealPowNat(10, t);
    RealPowAdd(10.0, t, n);
    StandsScaled(sc.r, sc.s, n, Value(m), 1, p, n + t);
    StandsScaled(sc.r + sc.mPlus, sc.s, n, Upper(m), 1, p, n + t);
    StandsScaled(sc.r - sc.mMinus, sc.s, n, Upper(m - 1), 1, p, n + t);
    MulAtLeast(sc.s, p);
  }

  lemma ScaleShape(sc: Scaled, k: int)
    requires Positive(sc)
    ensures Positive(ScaleByPower10(sc, k))
  {
    if k != 0 {
      var p := Pow(10, if k > 0 then k else -k);
      PowPositive(10, if k > 0 then k else -k);
      MulAtLeast(sc.s, p);
      MulAtLeast(sc.mPlus, p);
      MulAtLeast(sc.mMinus, p);
    }
  }

  lemma ScaleRepresents(sc: Scaled, m: NonZero, k: int)
    requires Represents(sc, m, 0)
    ensures Represents(ScaleByPower10(sc, k), m, k)
  {
    hide Value, Upper, Stands;
    if k > 0 {
      GrownDenominator(sc, m, 0, k);
    } else if k < 0 {
      EnlargedRepresents(sc, m, 0, -k);
    }
  }

  /** Comparing a decimal with the real that a fraction stands for. */
  lemma Compare(x: int, s: nat, n: int, y: real, e: int, j: nat)
    requires Stands(x, s, n, y) && s > 0
    ensures Dec(e, n - j) < y <==> e * s < x * Pow(10, j)
    ensures Dec(e, n - j) == y <==> e * s == x * Pow(10, j)
  {
    hide RealPow, Pow;
    var t, p := Ten(n - j), Pow(10, j);
    RealPowPositive(10.0, n - j);
    RealPowNat(10, j);
    RealPowAdd(10.0, n - j, j);
    CastMul(e, s);
    CastMul(x, p);
    CompareReals(e as real, s as real, x as real, p as real, t, y);
  }

  lemma CompareReals(e: real, s: real, x: real, p: real, t: real, y: real)
    requires s > 0.0 && t > 0.0 && x * (t * p) == y * s
    ensures e * t < y <==> e * s < x * p
    ensures e * t == y <==> e * s == x * p
  {
    Reassociate(x, p, t);
    Commute(e, t, s);
    ScaleOrder(e * t, y, s);
    ScaleOrder(e * s, x * p, t);
  }

  lemma Commute(a: real, b: real, c: real)
    ensures (a * b) * c == (a * c) * b
  {
  }

  /** The interval of the state is the rounding interval of the double. */
  lemma GapIsCell(sc: Scaled, m: NonZero, n: int, e: int, j: nat)
    requires Represents(sc, m, n)
    ensures InGap(sc, m % 2 == 0, e, j) <==> Reads(m, e, n - j)
  {
    hide Value, Upper, Dec, Pow, Stands;
    Compare(sc.r + sc.mPlus, sc.s, n, Upper(m), e, j);
    Compare(sc.r - sc.mMinus, sc.s, n, Upper(m - 1), e, j);
  }

  /** Distances in the state are distances between reals. */
  lemma DistanceIsReal(sc: Scaled, m: NonZero, n: int, e: int, j: nat)
    requires Represents(sc, m, n)
    ensures Abs(Dec(e, n - j) - Value(m)) * sc.s as real == Distance(sc, e, j) as real * Ten(n - j)
  {
    hide RealPow, Value, Upper, Pow;
    var t, p := Ten(n - j), Pow(10, j);
    RealPowPositive(10.0, n - j);
    RealPowNat(10, j);
    RealPowAdd(10.0, n - j, j);
    CastMul(e, sc.s);
    CastMul(sc.r, p);
    var x := e * sc.s - sc.r * p;
    DistanceReals(e as real, sc.s as real, sc.r as real, p as real, t, Value(m));
    var y := e as real * t - Value(m);
    assert Dec(e, n - j) - Value(m) == y;
    assert x as real == e as real * sc.s as real - sc.r as real * p as real;
    assert y * sc.s as real == x as real * t;
    SignsAgree(y, sc.s as real, x as real, t);
    assert Distance(sc, e, j) as real == Abs(x as real);
  }

  lemma DistanceReals(e: real, s: real, r: real, p: real, t: real, v: real)
    requires r * (t * p) == v * s
    ensures (e * t - v) * s == (e * s - r * p) * t
  {
    Reassociate(r, p, t);
    Commute(e, t, s);
    DistributeMinus(e * t, v, s);
    DistributeMinus(e * s, r * p, t);
  }

  lemma DistributeMinus(a: real, b: real, c: real)
    ensures (a - b) * c == a * c - b * c
  {
  }

  lemma SignsAgree(a: real, s: real, x: real, t: real)
    requires s > 0.0 && t > 0.0 && a * s == x * t
    ensures Abs(a) * s == Abs(x) * t
  {
  }

  lemma NearestIsNearer(sc: Scaled, m: NonZero, n: int, d: int, e: int, j: nat)
    requires Represents(sc, m, n) && Beats(sc, d, e, j)
    ensures NearerDecimal(m, d, e, n - j)
  {
    hide RealPow, Value, Upper, Dec, Distance;
    RealPowPositive(10.0, n - j);
    DistanceIsReal(sc, m, n, d, j);
    DistanceIsReal(sc, m, n, e, j);
    var x, y := Abs(Dec(d, n - j) - Value(m)), Abs(Dec(e, n - j) - Value(m));
    var a, b := Distance(sc, d, j) as real, Distance(sc, e, j) as real;
    SameOrder(x, y, a, b, sc.s as real, Ten(n - j));
  }

  lemma SameOrder(x: real, y: real, a: real, b: real, s: real, t: real)
    requires s > 0.0 && t > 0.0 && x * s == a * t && y * s == b * t
    ensures a <= b ==> x <= y
    ensures x == y ==> a == b
  {
    ScaleOrder(x, y, s);
    ScaleOrder(y, x, s);
    ScaleOrder(a, b, t);
    ScaleOrder(b, a, t);
  }

  lemma TenIsDec(n: int)
    ensures Ten(n) == Dec(1, n)
  {
  }

  /** Ready for digit extraction at place `n`. */
  ghost predicate Ready(sc: Scaled, m: NonZero, n: int) {
    && Represents(sc, m, n) && WideEnough(sc)
    && Open(sc, m % 2 == 0)
    && !CmpLow((sc.r + sc.mPlus) * 10, sc.s, m % 2 == 0)
  }

  /** No test fires on a state whose upper end is below one. */
  lemma BelowOneIsOpen(sc: Scaled, m: NonZero, n: int)
    requires Represents(sc, m, n) && !RoundsUp(sc, m % 2 == 0)
    ensures Open(sc, m % 2 == 0)
  {
    hide Value, Upper, Dec;
    ValuesNonNegative(m - 1);
    Compare(sc.r - sc.mMinus, sc.s, n, Upper(m - 1), 0, 0);
    assert Dec(0, n) == 0.0 by {
      DecZero(n);
    }
    assert (sc.r - sc.mMinus) * Pow(10, 0) == sc.r - sc.mMinus;
  }

  lemma DecZero(n: int)
    ensures Dec(0, n) == 0.0
  {
  }

  lemma HighFixupRepresents(sc: Scaled, m: NonZero, k: int)
    requires Represents(sc, m, k) && Admissible(m, k)
    ensures var (out, n) := HighFixup(sc, m % 2 == 0, k);
      Represents(out, m, n) && !RoundsUp(out, m % 2 == 0)
  {
    hide Value, Upper, Stands, Dec;
    if RoundsUp(sc, m % 2 == 0) {
      assert Pow(10, 1) == 10;
      GrownDenominator(sc, m, k, 1);
      var out := sc.(s := sc.s * 10);
      TenIsDec(k + 1);
      Compare(out.r + out.mPlus, out.s, k + 1, Upper(m), 1, 0);
      assert (sc.r + sc.mPlus) * Pow(10, 0) == sc.r + sc.mPlus;
    }
  }

  lemma LowFixupPositive(sc: Scaled, isEven: bool, n: int)
    requires Positive(sc)
    ensures Positive(LowFixup(sc, isEven, n).0)
    decreases sc.s - sc.r - sc.mPlus
  {
  }

  lemma {:induction false} LowFixupReady(sc: Scaled, m: NonZero, n: int)
    requires Represents(sc, m, n) && !RoundsUp(sc, m % 2 == 0)
    ensures var (out, p) := LowFixup(sc, m % 2 == 0, n); Ready(out, m, p)
    decreases sc.s - sc.r - sc.mPlus
  {
    var isEven := m % 2 == 0;
    if CmpLow(sc.r * 10, sc.s, isEven) && CmpLow((sc.r + sc.mPlus) * 10, sc.s, isEven) {
      assert Pow(10, 1) == 10;
      EnlargedRepresents(sc, m, n, 1);
      LowFixupReady(Enlarged(sc, 10), m, n - 1);
    } else {
      BelowOneIsOpen(sc, m, n);
    }
  }

  lemma PrepareReady(m: NonZero, k: int)
    requires Admissible(m, k)
    ensures Ready(Prepare(m, k).0, m, Prepare(m, k).1)
  {
    ParityOfSignificand(m);
    InitRepresents(m);
    var p := DecodeFloatParts(m);
    ScaleRepresents(InitScaled(p), m, k);
    HighFixupRepresents(ScaleByPower10(InitScaled(p), k), m, k);
    var (sc, n) := HighFixup(ScaleByPower10(InitScaled(p), k), p.isEven, k);
    LowFixupReady(sc, m, n);
  }

  // ---------- the printed decimal ----------

  lemma ReadyIsPositioned(sc: Scaled, m: NonZero, n: int)
    requires Ready(sc, m, n)
    ensures Positioned(m, n)
  {
    hide Value, Upper, Dec;
    TenIsDec(n);
    TenIsDec(n - 1);
    Compare(sc.r + sc.mPlus, sc.s, n, Upper(m), 1, 0);
    Compare(sc.r + sc.mPlus, sc.s, n, Upper(m), 1, 1);
    assert Pow(10, 0) == 1 && Pow(10, 1) == 10;
  }

  /** A decimal with fewer digits is a multiple of a coarser place, or below the whole interval. */
  lemma FewerDigits(m: NonZero, n: int, k: nat, e: nat, q: int)
    requires k > 0 && Positioned(m, n) && e < Pow(10, k - 1)
    requires NoneCoarser(m, n, k)
    ensures !Reads(m, e, q)
  {
    hide Value, Upper, Dec;
    var j := k - 1;
    if q >= n - j {
      DecShift(e, n - j, q - (n - j));
      assert !Reads(m, e * Pow(10, q - (n - j)), n - j);
    } else if k == 1 {
      assert Pow(10, 0) == 1;
      DecZero(q);
      ValuesNonNegative(m - 1);
    } else {
      TenIsDec(n - 1);
      assert !Reads(m, 1, n - 1);
      BelowLeadingPlace(e, q, n, j);
      AtOrBelowMonotone(Dec(e, q), Ten(n - 1), m - 1, m - 1);
    }
  }

  lemma BelowLeadingPlace(e: nat, q: int, n: int, j: nat)
    requires e < Pow(10, j) && q < n - j
    ensures Dec(e, q) < Ten(n - 1)
  {
    hide RealPow;
    TenIsDec(q + j);
    DecShift(1, q, j);
    DecMonotone(e, Pow(10, j), q);
    if q + j < n - 1 {
      RealPowStrict(10.0, q + j, n - 1);
    }
  }

  lemma ExtractIsShortest(sc: Scaled, m: NonZero, n: int)
    requires Ready(sc, m, n)
    ensures IsShortest(m, Extract(sc, m % 2 == 0), n)
    ensures |Extract(sc, m % 2 == 0)| <= MAX_DIGITS
  {
    hide Value, Upper, Extract, InGap, Reads, Distance, Represents, Dec;
    var isEven := m % 2 == 0;
    var ds := Extract(sc, isEven);
    ExtractCorrect(sc, isEven);
    LeadingDigit(sc, isEven);
    AtMost17Digits(sc, isEven);
    ReadyIsPositioned(sc, m, n);
    GapIsCell(sc, m, n, Number(ds), |ds|);
    forall q: int, f: int | n - |ds| < q <= n ensures !Reads(m, f, q) {
      GapIsCell(sc, m, n, f, n - q);
    }
    forall e: nat, p: int | e < Pow(10, |ds| - 1) ensures !Reads(m, e, p) {
      FewerDigits(m, n, |ds|, e, p);
    }
    var place := n - |ds|;
    forall e: int | Reads(m, e, place) ensures NearerDecimal(m, Number(ds), e, place) {
      GapIsCell(sc, m, n, e, |ds|);
      NearestIsNearer(sc, m, n, Number(ds), e, |ds|);
    }
  }

  /** Digit generation from any admissible estimate returns the printed decimal. */
  lemma GenerateIsShortest(m: NonZero, k: int)
    requires Admissible(m, k)
    ensures IsShortest(m, Generate(m, k).0, Generate(m, k).1)
    ensures |Generate(m, k).0| <= MAX_DIGITS
  {
    ParityOfSignificand(m);
    PrepareReady(m, k);
    var (sc, n) := Prepare(m, k);
    ExtractIsShortest(sc, m, n);
  }

  /** A double has one printed decimal. */
  lemma ShortestUnique(m: NonZero, a: seq<nat>, p: int, b: seq<nat>, q: int)
    requires IsShortest(m, a, p) && IsShortest(m, b, q)
    ensures a == b && p == q
  {
    hide Value, Upper, Dec, Reads, Positioned, NearerDecimal;
    PositionUnique(m, p, q);
    NumberBound(a);
    NumberBound(b);
    if |a| < |b| {
      PowMonotone(10, |a|, |b| - 1);
    } else if |b| < |a| {
      PowMonotone(10, |b|, |a| - 1);
    }
    MirrorImages(m, Number(a), Number(b), |a|, p - |a|);
    NumberInjective(a, b);
  }

  lemma PositionUnique(m: NonZero, p: int, q: int)
    requires Positioned(m, p) && Positioned(m, q)
    ensures p == q
  {
    hide Value, Upper, RealPow;
    if p < q {
      if p < q - 1 { RealPowStrict(10.0, p, q - 1); }
      AtOrBelowMonotone(Ten(p), Ten(q - 1), m, m);
    } else if q < p {
      if q < p - 1 { RealPowStrict(10.0, q, p - 1); }
      AtOrBelowMonotone(Ten(q), Ten(p - 1), m, m);
    }
  }

  /** Two equally near even multiples would have an odd, nearer one between them. */
  lemma MirrorImages(m: NonZero, d: nat, e: nat, k: nat, q: int)
    requires k > 0 && ShortestAndNearest(m, d, k, q) && ShortestAndNearest(m, e, k, q)
    ensures d == e
  {
    hide Value, Upper, Dec;
    assert NearerDecimal(m, d, e, q) && NearerDecimal(m, e, d, q);
    if e < d {
      Between(m, e, d, q);
      assert NearerDecimal(m, d, d - 1, q);
      DecMonotone(e, d - 1, q);
      DecMonotone(d - 1, d, q);
    } else if d < e {
      Between(m, d, e, q);
      assert NearerDecimal(m, d, d + 1, q);
      DecMonotone(d, d + 1, q);
      DecMonotone(d + 1, e, q);
    }
  }

  /** The decimals that round to `m` are contiguous. */
  lemma Between(m: NonZero, d: int, e: int, q: int)
    requires d < e && Reads(m, d, q) && Reads(m, e, q)
    ensures Reads(m, d + 1, q) && Reads(m, e - 1, q)
  {
    Inside(m, d, d + 1, e, q);
    Inside(m, d, e - 1, e, q);
  }

  lemma AboveMonotone(x: real, y: real, m: nat)
    requires x <= y && !AtOrBelow(x, m)
    ensures !AtOrBelow(y, m)
  {
  }

  lemma Inside(m: NonZero, d: int, f: int, e: int, q: int)
    requires d <= f <= e && Reads(m, d, q) && Reads(m, e, q)
    ensures Reads(m, f, q)
  {
    hide Value, Upper, Dec;
    DecMonotone(d, f, q);
    DecMonotone(f, e, q);
    AtOrBelowMonotone(Dec(f, q), Dec(e, q), m, m);
    AboveMonotone(Dec(d, q), Dec(f, q), m - 1);
  }

  // ---------- range of the exponent ----------

  /** 2^1023 < 10^308 and 2^1074 < 10^324. */
  lemma PowersCompared()
    ensures Pow(2, 1023) <= Pow(10, 308) && Pow(2, 1074) < Pow(10, 324)
  {
    hide Pow;
    TwoTo93();
    PowOfPow(2, 93, 11);
    PowOfPow(10, 28, 11);
    PowBaseMonotone(Pow(2, 93), Pow(10, 28), 11);
    assert 93 * 11 == 1023 && 28 * 11 == 308;
    PowAdd(2, 1023, 51);
    PowAdd(10, 308, 16);
    PowPositive(10, 308);
    MulMonotone(Pow(2, 1023), Pow(10, 308), Pow(2, 51), Pow(2, 51));
    MulStrict(Pow(2, 51), Pow(10, 16), Pow(10, 308));
  }

  lemma TwoTo93()
    ensures Pow(2, 93) < Pow(10, 28) && Pow(2, 51) < Pow(10, 16)
  {
    hide Pow;
    SmallPowers();
    PowAdd(2, 10, 10);
    PowAdd(2, 20, 20);
    assert Pow(2, 40) == 0x100_0000_0000;
    PowAdd(2, 10, 1);
    PowAdd(2, 40, 11);
    PowAdd(2, 40, 40);
    assert Pow(2, 80) == 0x1_0000_0000_0000_0000_0000;
    PowAdd(2, 10, 3);
    PowAdd(2, 80, 13);
    PowAdd(10, 4, 4);
    PowAdd(10, 8, 8);
    assert Pow(10, 16) == 10_000_000_000_000_000;
    PowAdd(10, 8, 4);
    PowAdd(10, 16, 12);
  }

  lemma SmallPowers()
    ensures Pow(2, 10) == 1024 && Pow(2, 1) == 2 && Pow(2, 3) == 8 && Pow(10, 4) == 10000
  {
  }

  /** Every binary64 number is below 10^309 ... */
  lemma BelowTen309(m: NonZero)
    ensures Upper(m) < Ten(309)
  {
    hide Value, Upper, RealPow;
    UpperBetween(m);
    if m + 1 < INFINITE {
      ValueStrict(m + 1, INFINITE);
    }
    TopBelow();
  }

  lemma TopBelow()
    ensures Value(INFINITE) < Ten(309)
  {
    hide Pow, Value, RealPow;
    TopValue();
    assert Two(52) == HIDDEN_BIT as real by {
      PowersOfTwo();
      RealPowNat(2, 52);
    }
    RealPowAdd(2.0, 52, 972);
    assert Value(INFINITE) == Two(1024);
    RealPowStep(2.0, 1023);
    RealPowStep(10.0, 308);
    assert Two(1023) <= Ten(308) by {
      PowersCompared();
      RealPowNat(2, 1023);
      RealPowNat(10, 308);
    }
    RealPowPositive(10.0, 308);
  }

  lemma TopValue()
    ensures Value(INFINITE) == HIDDEN_BIT as real * Two(972)
  {
    hide RealPow;
    assert INFINITE % HIDDEN_BIT == 0 && INFINITE / HIDDEN_BIT == 2047;
    var p := DecodeFloatParts(INFINITE);
    assert p.fMant == HIDDEN_BIT && p.fExp == 972;
  }

  lemma PowersOfTwo()
    ensures Pow(2, 52) == HIDDEN_BIT
  {
    assert Pow(2, 13) == 8192;
    PowAdd(2, 13, 13);
    PowAdd(2, 26, 26);
  }

  /** ... and above 10^-324. */
  lemma AboveTenMinus324(m: NonZero)
    ensures Ten(-324) < Value(m)
  {
    hide Pow, Value, RealPow;
    if m > 1 {
      ValueStrict(1, m);
    }
    ValueOfParts(1);
    assert Value(1) == Two(-1074);
    PowersCompared();
    RealPowNat(2, 1074);
    RealPowNat(10, 324);
    RealPowInverse(2.0, 1074);
    RealPowInverse(10.0, 324);
    RealPowPositive(2.0, -1074);
    RealPowPositive(2.0, 1074);
    RealPowPositive(10.0, -324);
    Reciprocals(Two(1074), Two(-1074), Ten(324), Ten(-324));
  }

  lemma Reciprocals(x: real, x': real, y: real, y': real)
    requires x > 0.0 && x' > 0.0 && y' > 0.0 && x * x' == 1.0 && y * y' == 1.0 && x < y
    ensures y' < x'
  {
    assert x * y' < y * y';
    ScaleOrder(x', y', x);
    ScaleOrder(y', x', x);
  }

  /** The range of printed exponents. */
  lemma ExponentRange(m: NonZero, n: int)
    requires Positioned(m, n)
    ensures -323 <= n <= 309
  {
    hide Value, Upper, RealPow;
    BelowTen309(m);
    AboveTenMinus324(m);
    UpperBetween(m);
    if n > 309 {
      if n > 310 { RealPowStrict(10.0, 309, n - 1); }
    } else if n <= -324 {
      if n < -324 { RealPowStrict(10.0, n, -324); }
    }
  }

  /** An estimate above every printed exponent is admissible. */
  lemma HighEstimateAdmissible(m: NonZero)
    ensures Admissible(m, 309)
  {
    hide RealPow, Upper;
    BelowTen309(m);
    RealPowStrict(10.0, 309, 310);
  }

  lemma ExistsShortest(m: NonZero)
    ensures exists ds, n :: IsShortest(m, ds, n)
  {
    HighEstimateAdmissible(m);
    GenerateIsShortest(m, 309);
    assert IsShortest(m, Generate(m, 309).0, Generate(m, 309).1);
  }

  /** The printed decimal of a double. */
  ghost function ShortestDecimal(m: NonZero): (r: (seq<nat>, int))
    ensures IsShortest(m, r.0, r.1)
  {
    ExistsShortest(m);
    var ds, n :| IsShortest(m, ds, n);
    (ds, n)
  }

  /** Reading the printed decimal of a double with round-to-nearest-even gives the double back. */
  lemma DecimalRoundTrip(m: NonZero)
    ensures var (ds, n) := ShortestDecimal(m);
      DecimalValue(ds, n) >= 0.0 && Round(DecimalValue(ds, n)) == m
  {
    var (ds, n) := ShortestDecimal(m);
    DecMonotone(0, Number(ds), n - |ds|);
    DecZero(n - |ds|);
    NumberLead(ds);
    PowPositive(10, |ds| - 1);
    RoundIsCell(DecimalValue(ds, n), m);
  }

  // ---------- independence of the estimate ----------

  lemma {:induction false} LowFixupOnlyLowers(sc: Scaled, isEven: bool, n: int)
    requires Positive(sc)
    ensures LowFixup(sc, isEven, n).1 <= n
    decreases sc.s - sc.r - sc.mPlus
  {
    if CmpLow(sc.r * 10, sc.s, isEven) && CmpLow((sc.r + sc.mPlus) * 10, sc.s, isEven) {
      LowFixupOnlyLowers(Enlarged(sc, 10), isEven, n - 1);
    }
  }

  /** An estimate gives the printed decimal exactly when it is at most one too low, however high it is. */
  lemma EstimateExact(m: NonZero, k: int)
    ensures Generate(m, k) == ShortestDecimal(m) <==> Admissible(m, k)
  {
    hide Extract, IsShortest, Value, Upper, RealPow;
    var n := ShortestDecimal(m).1;
    if Admissible(m, k) {
      GenerateIsShortest(m, k);
      ShortestUnique(m, Generate(m, k).0, Generate(m, k).1, ShortestDecimal(m).0, n);
    } else {
      PrintedPosition(m);
      if n < k + 1 {
        RealPowStrict(10.0, n, k + 1);
      }
      if n <= k + 1 {
        AtOrBelowMonotone(Ten(n), Ten(k + 1), m, m);
      }
      TooLow(m, k);
    }
  }

  lemma PrintedPosition(m: NonZero)
    ensures Positioned(m, ShortestDecimal(m).1)
  {
  }

  lemma TooLow(m: NonZero, k: int)
    ensures Generate(m, k).1 <= k + 1
  {
    hide Extract;
    var p := DecodeFloatParts(m);
    InitShape(m);
    ScaleShape(InitScaled(p), k);
    var (sc, n) := HighFixup(ScaleByPower10(InitScaled(p), k), p.isEven, k);
    LowFixupOnlyLowers(sc, p.isEven, n);
  }

  /**
   * How far off an estimate may be: 10^k need only reach a sixth of the double. An exponent rounded
   * up from a logarithm is admissible even where the logarithm is three quarters too low.
   */
  lemma EstimateMargin(m: NonZero, k: int)
    requires Value(m) <= 6.0 * Ten(k)
    ensures Admissible(m, k)
  {
    hide Value, RealPow;
    UpperWithinHalf(m);
    RealPowPositive(10.0, k);
    RealPowStep(10.0, k);
  }

  lemma UpperWithinHalf(m: NonZero)
    ensures 2.0 * Upper(m) <= 3.0 * Value(m)
  {
    hide Value, RealPow, DecodeFloatParts;
    Gap(m);
    ValueOfParts(m);
    UnitWithin(m);
    RealPowPositive(2.0, DecodeFloatParts(m).fExp);
    ScaleOrder(1.0, DecodeFloatParts(m).fMant as real, Two(DecodeFloatParts(m).fExp));
  }

  lemma UnitWithin(m: NonZero)
    ensures DecodeFloatParts(m).fMant >= 1
  {
  }
}
