/**
 * Shortest decimal generation as arithmetic on a scaled fraction.
 *
 * A scaled state (r, s, mPlus, mMinus) stands for the value r/s with rounding
 * interval from (r - mMinus)/s to (r + mPlus)/s, all in units of a power of ten.
 */
module Shortest {
  import opened Powers
  import opened Decimals
  import opened Doubles

  datatype Scaled = Scaled(r: nat, s: nat, mPlus: nat, mMinus: nat)

  ghost predicate Positive(sc: Scaled) {
    sc.s > 0 && sc.mPlus > 0 && sc.mMinus > 0
  }

  // ---------- the algorithm ----------

  function InitScaled(p: FloatParts): Scaled {
    if p.fExp >= 0 then
      if !p.lowerBoundary then
        Scaled(p.fMant * Pow(2, p.fExp + 1), 2, Pow(2, p.fExp), Pow(2, p.fExp))
      else
        Scaled(p.fMant * Pow(2, p.fExp + 2), 4, Pow(2, p.fExp + 1), Pow(2, p.fExp))
    else
      if !p.lowerBoundary then
        Scaled(p.fMant * Pow(2, 1), Pow(2, -p.fExp + 1), 1, 1)
      else
        Scaled(p.fMant * Pow(2, 2), Pow(2, -p.fExp + 2), 2, 1)
  }

  function ScaleByPower10(sc: Scaled, k: int): Scaled {
    if k > 0 then
      sc.(s := sc.s * Pow(10, k))
    else if k < 0 then
      Enlarged(sc, Pow(10, -k))
    else
      sc
  }

  function Enlarged(sc: Scaled, p: nat): Scaled {
    Scaled(sc.r * p, sc.s, sc.mPlus * p, sc.mMinus * p)
  }

  predicate CmpLow(lhs: int, rhs: int, isEven: bool) {
    if isEven then lhs < rhs else lhs <= rhs
  }

  predicate CmpHigh(lhs: int, rhs: int, isEven: bool) {
    if isEven then lhs >= rhs else lhs > rhs
  }

  predicate CmpRoundDown(lhs: int, rhs: int, isEven: bool) {
    if isEven then lhs <= rhs else lhs < rhs
  }

  function HighFixup(sc: Scaled, isEven: bool, n: int): (Scaled, int) {
    if CmpHigh(sc.r + sc.mPlus, sc.s, isEven) then (sc.(s := sc.s * 10), n + 1) else (sc, n)
  }

  function LowFixup(sc: Scaled, isEven: bool, n: int): (Scaled, int)
    requires Positive(sc)
    decreases sc.s - sc.r - sc.mPlus
  {
    if CmpLow(sc.r * 10, sc.s, isEven) && CmpLow((sc.r + sc.mPlus) * 10, sc.s, isEven) then
      LowFixup(Enlarged(sc, 10), isEven, n - 1)
    else
      (sc, n)
  }

  /** The next digit, and the state left after taking it. */
  function NextDigit(sc: Scaled): (nat, Scaled)
    requires sc.s > 0
  {
    ((sc.r * 10) / sc.s, Scaled((sc.r * 10) % sc.s, sc.s, sc.mPlus * 10, sc.mMinus * 10))
  }

  predicate RoundsDown(sc: Scaled, isEven: bool) {
    CmpRoundDown(sc.r, sc.mMinus, isEven)
  }

  predicate RoundsUp(sc: Scaled, isEven: bool) {
    CmpHigh(sc.r + sc.mPlus, sc.s, isEven)
  }

  function MidpointDigit(d: nat, sc: Scaled): nat {
    if sc.r * 2 < sc.s then d
    else if sc.r * 2 > sc.s then d + 1
    else if d % 2 == 0 then d
    else d + 1
  }

  function FinalDigit(d: nat, tc1: bool, tc2: bool, sc: Scaled): nat {
    if tc1 && !tc2 then d
    else if !tc1 && tc2 then d + 1
    else MidpointDigit(d, sc)
  }

  function Extract(sc: Scaled, isEven: bool): seq<nat>
    requires Positive(sc)
    decreases sc.s - sc.mPlus - sc.mMinus
  {
    var (d, next) := NextDigit(sc);
    var tc1, tc2 := RoundsDown(next, isEven), RoundsUp(next, isEven);
    if !tc1 && !tc2 then [d] + Extract(next, isEven) else [FinalDigit(d, tc1, tc2, next)]
  }

  // ---------- multiples of a decimal place in the interval of a state ----------

  /** e / 10^j lies in the interval of the state; the endpoints belong to it when `isEven`. */
  ghost predicate InGap(sc: Scaled, isEven: bool, e: int, j: nat) {
    var p := Pow(10, j);
    if isEven then
      (sc.r - sc.mMinus) * p <= e * sc.s <= (sc.r + sc.mPlus) * p
    else
      (sc.r - sc.mMinus) * p < e * sc.s < (sc.r + sc.mPlus) * p
  }

  /** Distance between e / 10^j and the value of the state, in units of 1 / (s * 10^j). */
  ghost function Distance(sc: Scaled, e: int, j: nat): nat {
    var x := e * sc.s - sc.r * Pow(10, j);
    if x < 0 then -x else x
  }

  /** e / 10^k is no farther from the value than f / 10^k, and even if it is equally far. */
  ghost predicate Beats(sc: Scaled, e: int, f: int, k: nat) {
    && Distance(sc, e, k) <= Distance(sc, f, k)
    && (Distance(sc, e, k) == Distance(sc, f, k) && e != f ==> e % 2 == 0)
  }

  ghost predicate Nearest(sc: Scaled, isEven: bool, e: int, k: nat) {
    forall f: int | InGap(sc, isEven, f, k) :: Beats(sc, e, f, k)
  }

  /** No decimal place coarser than the `k`th has a multiple in the interval. */
  ghost predicate NoneShorter(sc: Scaled, isEven: bool, k: nat) {
    forall j: nat, f: int | j < k :: !InGap(sc, isEven, f, j)
  }

  /** Neither 0 nor 1 is in the interval, but the value lies between them: no test has fired yet. */
  ghost predicate Open(sc: Scaled, isEven: bool) {
    Positive(sc) && sc.r < sc.s && !RoundsDown(sc, isEven) && !RoundsUp(sc, isEven)
  }

  lemma StepIdentity(r: int, s: int, d: int, rest: int, m: int, p: int)
    requires r * 10 == d * s + rest
    ensures (r + m) * (10 * p) == (d * p) * s + (rest + m * 10) * p
  {
    calc {
      (r + m) * (10 * p);
      (r * 10 + m * 10) * p;
      (d * s + rest + m * 10) * p;
      (d * s) * p + (rest + m * 10) * p;
      { assert (d * s) * p == (d * p) * s; }
      (d * p) * s + (rest + m * 10) * p;
    }
  }

  lemma DivMod(x: nat, s: nat)
    requires s > 0
    ensures x == (x / s) * s + x % s && 0 <= x % s < s
  {
  }

  /** Taking a digit moves the question one place to the left. */
  lemma StepGap(sc: Scaled, isEven: bool, e: int, j: nat)
    requires sc.s > 0
    ensures var (d, next) := NextDigit(sc);
      && (InGap(sc, isEven, e, j + 1) <==> InGap(next, isEven, e - d * Pow(10, j), j))
      && Distance(sc, e, j + 1) == Distance(next, e - d * Pow(10, j), j)
  {
    var (d, next) := NextDigit(sc);
    var p := Pow(10, j);
    DivMod(sc.r * 10, sc.s);
    StepIdentity(sc.r, sc.s, d, next.r, 0 - sc.mMinus, p);
    StepIdentity(sc.r, sc.s, d, next.r, sc.mPlus, p);
    StepIdentity(sc.r, sc.s, d, next.r, 0, p);
    MinusTimes(e, d * p, sc.s);
  }

  lemma MinusTimes(a: int, b: int, s: int)
    ensures (a - b) * s == a * s - b * s
  {
  }

  /** A multiple of a place is a multiple of the next finer one. */
  lemma FinerPlace(sc: Scaled, isEven: bool, e: int, j: nat)
    ensures InGap(sc, isEven, e, j) <==> InGap(sc, isEven, 10 * e, j + 1)
  {
    var p := Pow(10, j);
    TenTimes(sc.r - sc.mMinus, p);
    TenTimes(sc.r + sc.mPlus, p);
    assert (10 * e) * sc.s == 10 * (e * sc.s);
  }

  lemma TenTimes(x: int, p: int)
    ensures x * (10 * p) == 10 * (x * p)
  {
  }

  lemma OpenHasNoUnits(sc: Scaled, isEven: bool, e: int)
    requires Open(sc, isEven)
    ensures !InGap(sc, isEven, e, 0)
  {
    if e <= 0 {
      assert e * sc.s <= 0;
    } else {
      MulMonotone(1, e, sc.s, sc.s);
    }
  }

  /** The final digit is in the interval ... */
  lemma FinalDigitInGap(sc: Scaled, isEven: bool, d: nat)
    requires Positive(sc) && sc.r < sc.s
    requires RoundsDown(sc, isEven) || RoundsUp(sc, isEven)
    ensures var f := FinalDigit(d, RoundsDown(sc, isEven), RoundsUp(sc, isEven), sc);
      d <= f <= d + 1 && InGap(sc, isEven, f - d, 0)
  {
  }

  /** ... and beats every other multiple of its place there. */
  lemma FinalDigitBeats(sc: Scaled, isEven: bool, d: nat, g: int)
    requires Positive(sc) && sc.r < sc.s
    requires RoundsDown(sc, isEven) || RoundsUp(sc, isEven)
    requires InGap(sc, isEven, g, 0)
    ensures var f := FinalDigit(d, RoundsDown(sc, isEven), RoundsUp(sc, isEven), sc);
      && Distance(sc, f - d, 0) <= Distance(sc, g, 0)
      && (Distance(sc, f - d, 0) == Distance(sc, g, 0) && f - d != g ==> f % 2 == 0)
  {
    var f := FinalDigit(d, RoundsDown(sc, isEven), RoundsUp(sc, isEven), sc);
    FinalDigitInGap(sc, isEven, d);
    UnitDistance(sc, f - d);
    UnitDistance(sc, g);
    if g == 0 {
      assert RoundsDown(sc, isEven);
    } else if g == 1 {
      assert RoundsUp(sc, isEven);
    }
  }

  /** Distances to whole numbers: exact at 0 and 1, larger than either elsewhere. */
  lemma UnitDistance(sc: Scaled, g: int)
    requires sc.s > 0 && sc.r < sc.s
    ensures g == 0 ==> Distance(sc, g, 0) == sc.r
    ensures g == 1 ==> Distance(sc, g, 0) == sc.s - sc.r
    ensures g < 0 ==> Distance(sc, g, 0) >= sc.s + sc.r
    ensures g > 1 ==> Distance(sc, g, 0) >= sc.s + sc.s - sc.r
  {
    assert Pow(10, 0) == 1;
    if g < 0 {
      MinusMultiple(g, sc.s);
    } else if g > 1 {
      MulMonotone(2, g, sc.s, sc.s);
    }
  }

  lemma MinusMultiple(t: int, s: nat)
    requires t <= -1
    ensures t * s <= 0 - s
  {
    assert (t + 1) * s <= 0;
  }

  /** What the digit loop returns: digits only, no trailing zero, shortest, and nearest at its place. */
  lemma {:induction false} ExtractCorrect(sc: Scaled, isEven: bool)
    requires Open(sc, isEven)
    ensures var ds := Extract(sc, isEven);
      && |ds| > 0 && AllDigits(ds) && ds[|ds| - 1] != 0
      && InGap(sc, isEven, Number(ds), |ds|)
      && NoneShorter(sc, isEven, |ds|)
      && Nearest(sc, isEven, Number(ds), |ds|)
    decreases sc.s - sc.mPlus - sc.mMinus
  {
    hide InGap, Distance, NoneShorter, Nearest, FinalDigit;
    var ds := Extract(sc, isEven);
    var (d, next) := NextDigit(sc);
    DivMod(sc.r * 10, sc.s);
    if !RoundsDown(next, isEven) && !RoundsUp(next, isEven) {
      var tail := Extract(next, isEven);
      ExtractCorrect(next, isEven);
      assert ds[1..] == tail;
      var k := |tail|;
      DigitBelowTen(sc, d);
      StepGap(sc, isEven, Number(ds), k);
      StepNoneShorter(sc, isEven, k);
      StepNearest(sc, isEven, Number(tail), k);
    } else {
      OneDigit(ds[0]);
      LastStep(sc, isEven);
    }
  }

  lemma LastStep(sc: Scaled, isEven: bool)
    requires Open(sc, isEven)
    requires var next := NextDigit(sc).1; RoundsDown(next, isEven) || RoundsUp(next, isEven)
    ensures var (d, next) := NextDigit(sc);
      var f := FinalDigit(d, RoundsDown(next, isEven), RoundsUp(next, isEven), next);
      1 <= f <= 9 && InGap(sc, isEven, f, 1) && NoneShorter(sc, isEven, 1) && Nearest(sc, isEven, f, 1)
  {
    var (d, next) := NextDigit(sc);
    var f := FinalDigit(d, RoundsDown(next, isEven), RoundsUp(next, isEven), next);
    DivMod(sc.r * 10, sc.s);
    hide InGap, Distance, FinalDigit;
    FinalDigitInGap(next, isEven, d);
    PlaceZero(d);
    StepGap(sc, isEven, f, 0);
    DigitBelowTen(sc, d);
    FinalDigitRange(sc, isEven, f);
    forall j: nat, g: int | j < 1 ensures !InGap(sc, isEven, g, j) {
      OpenHasNoUnits(sc, isEven, g);
    }
    forall g: int | InGap(sc, isEven, g, 1) ensures Beats(sc, f, g, 1) {
      StepGap(sc, isEven, g, 0);
      FinalDigitBeats(next, isEven, d, g - d);
    }
  }

  lemma PlaceZero(d: nat)
    ensures d * Pow(10, 0) == d
  {
  }

  lemma DigitBelowTen(sc: Scaled, d: nat)
    requires sc.r < sc.s && d == (sc.r * 10) / sc.s
    ensures d <= 9
  {
    DivMod(sc.r * 10, sc.s);
    if d >= 10 {
      MulMonotone(10, d, sc.s, sc.s);
    }
  }

  /** A digit 0 or 10 would have been a multiple of the previous place. */
  lemma FinalDigitRange(sc: Scaled, isEven: bool, f: nat)
    requires Open(sc, isEven) && InGap(sc, isEven, f, 1) && f <= 10
    ensures 1 <= f <= 9
  {
    FinerPlace(sc, isEven, 0, 0);
    FinerPlace(sc, isEven, 1, 0);
    OpenHasNoUnits(sc, isEven, 0);
    OpenHasNoUnits(sc, isEven, 1);
  }

  lemma StepNoneShorter(sc: Scaled, isEven: bool, k: nat)
    requires Open(sc, isEven) && NoneShorter(NextDigit(sc).1, isEven, k)
    ensures NoneShorter(sc, isEven, k + 1)
  {
    forall j: nat, e: int | j < k + 1 ensures !InGap(sc, isEven, e, j) {
      if j == 0 {
        OpenHasNoUnits(sc, isEven, e);
      } else {
        StepGap(sc, isEven, e, j - 1);
      }
    }
  }

  lemma StepNearest(sc: Scaled, isEven: bool, tail: nat, k: nat)
    requires sc.s > 0 && k > 0 && Nearest(NextDigit(sc).1, isEven, tail, k)
    ensures Nearest(sc, isEven, NextDigit(sc).0 * Pow(10, k) + tail, k + 1)
  {
    hide InGap, Distance, Pow, NextDigit, Beats;
    var (d, next) := NextDigit(sc);
    var e := d * Pow(10, k) + tail;
    var place := k + 1;
    forall f: int | InGap(sc, isEven, f, place) ensures Beats(sc, e, f, place) {
      StepGap(sc, isEven, f, k);
      StepBeats(sc, isEven, tail, f, k);
    }
  }

  /** What beats a rival after a digit is taken beats it before. */
  lemma StepBeats(sc: Scaled, isEven: bool, tail: nat, f: int, k: nat)
    requires sc.s > 0 && k > 0
    requires var (d, next) := NextDigit(sc); Beats(next, tail, f - d * Pow(10, k), k)
    ensures Beats(sc, NextDigit(sc).0 * Pow(10, k) + tail, f, k + 1)
  {
    hide Distance, Pow, NextDigit, InGap;
    var d := NextDigit(sc).0;
    var shift := d * Pow(10, k);
    TimesEven(d, Pow(10, k), k);
    StepGap(sc, isEven, shift + tail, k);
    StepGap(sc, isEven, f, k);
  }

  lemma TimesEven(d: nat, p: nat, k: nat)
    requires k > 0 && p == Pow(10, k)
    ensures (d * p) % 2 == 0
  {
    assert d * p == 2 * (5 * (d * Pow(10, k - 1)));
  }

  /** The leading digit is not zero once the upper end reaches a tenth. */
  lemma LeadingDigit(sc: Scaled, isEven: bool)
    requires Open(sc, isEven) && !CmpLow((sc.r + sc.mPlus) * 10, sc.s, isEven)
    ensures Normalized(Extract(sc, isEven))
  {
    ExtractCorrect(sc, isEven);
    var ds := Extract(sc, isEven);
    if |ds| > 1 {
      var (d, next) := NextDigit(sc);
      DivMod(sc.r * 10, sc.s);
    }
  }

  /** Every digit after the first needs an interval narrower than its place. */
  lemma {:induction false} LengthNeedsNarrowness(sc: Scaled, isEven: bool, t: nat)
    requires Open(sc, isEven) && |Extract(sc, isEven)| > t
    ensures (sc.mPlus + sc.mMinus) * Pow(10, t) <= sc.s
    decreases t
  {
    if t > 0 {
      var next := NextDigit(sc).1;
      StillOpen(sc, isEven);
      LengthNeedsNarrowness(next, isEven, t - 1);
      TenTimes(sc.mPlus + sc.mMinus, Pow(10, t - 1));
      Commuted(sc.mPlus + sc.mMinus, Pow(10, t - 1));
    }
  }

  lemma StillOpen(sc: Scaled, isEven: bool)
    requires Open(sc, isEven) && |Extract(sc, isEven)| > 1
    ensures Open(NextDigit(sc).1, isEven)
    ensures Extract(sc, isEven)[1..] == Extract(NextDigit(sc).1, isEven)
  {
    DivMod(sc.r * 10, sc.s);
  }

  lemma Commuted(w: nat, p: nat)
    ensures (w * 10) * p == 10 * (w * p)
  {
  }

  const MAX_DIGITS: nat := 17

  /** The interval is wider than 10^-16 of its upper end: true of every binary64 number. */
  ghost predicate WideEnough(sc: Scaled) {
    sc.r + sc.mPlus < (sc.mPlus + sc.mMinus) * 0x2386F26FC10000
  }

  /** The digit bound. */
  lemma AtMost17Digits(sc: Scaled, isEven: bool)
    requires Open(sc, isEven) && WideEnough(sc)
    requires !CmpLow((sc.r + sc.mPlus) * 10, sc.s, isEven)
    ensures |Extract(sc, isEven)| <= MAX_DIGITS
  {
    if |Extract(sc, isEven)| > MAX_DIGITS {
      LengthNeedsNarrowness(sc, isEven, MAX_DIGITS);
      TenTo17(sc.mPlus + sc.mMinus);
    }
  }

  lemma TenTo17(w: nat)
    ensures w * Pow(10, MAX_DIGITS) == w * 0x2386F26FC10000 * 10
  {
    assert Pow(10, 4) == 10000 && Pow(10, 5) == 100000;
    PowAdd(10, 4, 4);
    PowAdd(10, 4, 5);
    PowAdd(10, 8, 9);
  }
}
