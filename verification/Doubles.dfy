/**
 * Binary64 numbers, the interval of reals that rounds to each of them, and
 * round-to-nearest, ties-to-even (section 4.3.1 of IEEE 754-2019).
 *
 * A finite double is a sign and a magnitude: the low 63 bits of its encoding.
 * Consecutive magnitudes are consecutive doubles, and a magnitude is even
 * exactly when the significand is, so the whole rounding theory is a theory of
 * the increasing sequence `Value(0) < Value(1) < ...`.
 */
module Doubles {
  import opened Powers

  /** 2^52, the weight of the implicit significand bit. */
  const HIDDEN_BIT: nat := 0x10_0000_0000_0000

  /** The magnitude after the largest finite one: the encoding of infinity. */
  const INFINITE: nat := 2047 * HIDDEN_BIT

  type Magnitude = m: nat | m < INFINITE

  datatype Float = NaN | Inf(negative: bool) | Finite(negative: bool, magnitude: Magnitude)

  datatype FloatParts = FloatParts(
    mantissa: nat, biasedExp: nat, fMant: nat, fExp: int, lowerBoundary: bool, isEven: bool)

  function DecodeFloatParts(m: nat): FloatParts {
    var mantissa := m % HIDDEN_BIT;
    var biasedExp := m / HIDDEN_BIT;
    var fMant := if biasedExp != 0 then HIDDEN_BIT + mantissa else mantissa;
    var fExp := if biasedExp != 0 then biasedExp - 1023 - 52 else 1 - 1023 - 52;
    FloatParts(mantissa, biasedExp, fMant, fExp, biasedExp > 1 && mantissa == 0, fMant % 2 == 0)
  }

  /** The real number a magnitude stands for; `INFINITE` continues the sequence with 2^1024. */
  function Value(m: nat): real {
    var p := DecodeFloatParts(m);
    p.fMant as real * Two(p.fExp)
  }

  /** The midpoint between a magnitude and its successor. */
  function Upper(m: nat): real {
    (Value(m) + Value(m + 1)) / 2.0
  }

  /** `x` is not above the rounding interval of `m`; an even significand owns its endpoints. */
  predicate AtOrBelow(x: real, m: nat) {
    x < Upper(m) || (x == Upper(m) && m % 2 == 0)
  }

  /** `x` lies in the rounding interval of `m`. */
  predicate InCell(x: real, m: nat) {
    AtOrBelow(x, m) && (m > 0 ==> !AtOrBelow(x, m - 1))
  }

  function RoundFrom(x: real, m: nat): (r: nat)
    requires m <= INFINITE
    ensures m <= r <= INFINITE
    ensures r < INFINITE ==> AtOrBelow(x, r)
    ensures forall j | m <= j < r :: !AtOrBelow(x, j)
    decreases INFINITE - m
  {
    if m == INFINITE || AtOrBelow(x, m) then m else RoundFrom(x, m + 1)
  }

  /** Round to nearest, ties to even; `INFINITE` is overflow. */
  function Round(x: real): nat
    requires x >= 0.0
  {
    RoundFrom(x, 0)
  }

  // ---------- the sequence of doubles ----------

  /** The successor has the next significand, or half of it with the next exponent. */
  lemma NextParts(m: nat)
    ensures var p, q := DecodeFloatParts(m), DecodeFloatParts(m + 1);
      || (q.fExp == p.fExp && q.fMant == p.fMant + 1)
      || (q.fExp == p.fExp + 1 && 2 * q.fMant == p.fMant + 1)
  {
    if m % HIDDEN_BIT + 1 < HIDDEN_BIT {
      assert (m + 1) / HIDDEN_BIT == m / HIDDEN_BIT && (m + 1) % HIDDEN_BIT == m % HIDDEN_BIT + 1;
    } else {
      assert (m + 1) / HIDDEN_BIT == m / HIDDEN_BIT + 1 && (m + 1) % HIDDEN_BIT == 0;
    }
  }

  /** Neighbouring doubles differ by one unit in the last place of the smaller one. */
  lemma Gap(m: nat)
    ensures Value(m + 1) - Value(m) == Two(DecodeFloatParts(m).fExp) > 0.0
  {
    hide RealPow, DecodeFloatParts;
    var p, q := DecodeFloatParts(m), DecodeFloatParts(m + 1);
    RealPowPositive(2.0, p.fExp);
    RealPowStep(2.0, p.fExp);
    NextParts(m);
    Distribute(p.fMant as real, 1.0, Two(p.fExp));
    if q.fExp == p.fExp {
      assert q.fMant as real == p.fMant as real + 1.0;
    } else {
      assert 2.0 * q.fMant as real == p.fMant as real + 1.0;
      DoubledFactor(q.fMant as real, Two(p.fExp));
    }
  }

  lemma Distribute(a: real, b: real, t: real)
    ensures (a + b) * t == a * t + b * t
  {
  }

  lemma DoubledFactor(a: real, t: real)
    ensures a * (2.0 * t) == (2.0 * a) * t
  {
  }

  lemma {:induction false} ValueStrict(i: nat, j: nat)
    requires i < j
    ensures Value(i) < Value(j)
    decreases j
  {
    Gap(j - 1);
    if i < j - 1 {
      ValueStrict(i, j - 1);
    }
  }

  lemma UpperBetween(m: nat)
    ensures Value(m) < Upper(m) < Value(m + 1)
  {
    Gap(m);
  }

  lemma UpperStrict(i: nat, j: nat)
    requires i < j
    ensures Upper(i) < Upper(j)
  {
    UpperBetween(i);
    UpperBetween(j);
    if i + 1 < j {
      ValueStrict(i + 1, j);
    }
  }

  lemma ValuesNonNegative(m: nat)
    ensures Value(0) == 0.0 && 0.0 <= Value(m) && 0.0 < Upper(m)
    ensures m > 0 ==> 0.0 < Value(m)
  {
    UpperBetween(m);
    if m > 0 {
      ValueStrict(0, m);
    }
  }

  lemma AtOrBelowMonotone(x: real, y: real, i: nat, j: nat)
    requires x <= y && i <= j && AtOrBelow(y, i)
    ensures AtOrBelow(x, j)
  {
    if i < j {
      UpperStrict(i, j);
    }
  }

  lemma ValueInCell(m: nat)
    ensures InCell(Value(m), m)
  {
    UpperBetween(m);
    if m > 0 {
      UpperBetween(m - 1);
    }
  }

  // ---------- rounding ----------

  /** The rounding intervals of distinct doubles are disjoint. */
  lemma CellsDisjoint(x: real, i: nat, j: nat)
    requires InCell(x, i) && InCell(x, j)
    ensures i == j
  {
    if i < j {
      AtOrBelowMonotone(x, x, i, j - 1);
    } else if j < i {
      AtOrBelowMonotone(x, x, j, i - 1);
    }
  }

  /** Rounding yields a finite double exactly when the real lies in that double's interval. */
  lemma RoundIsCell(x: real, m: Magnitude)
    requires x >= 0.0
    ensures Round(x) == m <==> InCell(x, m)
  {
    hide Value, Upper;
    var r := Round(x);
    if InCell(x, m) && r < m {
      AtOrBelowMonotone(x, x, r, m - 1);
    }
  }

  /** Overflow happens from the midpoint between the largest double and 2^1024 on. */
  lemma RoundOverflow(x: real)
    requires x >= 0.0
    ensures Round(x) == INFINITE <==> x >= Upper(INFINITE - 1)
  {
    hide Value;
    if x < Upper(INFINITE - 1) {
      assert AtOrBelow(x, INFINITE - 1);
    } else if Round(x) < INFINITE {
      AtOrBelowMonotone(x, x, Round(x), INFINITE - 1);
    }
  }

  function Abs(x: real): real {
    if x < 0.0 then -x else x
  }

  /**
   * The rounding of `x` is a nearest double, and the even one when two are equally near.
   * The comparison includes 2^1024, the double that overflow stands for.
   */
  lemma RoundNearestEven(x: real, j: nat)
    requires x >= 0.0 && Round(x) < INFINITE && j <= INFINITE
    ensures Abs(x - Value(Round(x))) <= Abs(x - Value(j))
    ensures Abs(x - Value(Round(x))) == Abs(x - Value(j)) && j != Round(x) ==> Round(x) % 2 == 0
  {
    hide Value, Upper, RoundFrom;
    var m := Round(x);
    RoundIsCell(x, m);
    Midpoint(m);
    if m < j {
      if m + 1 < j {
        ValueStrict(m + 1, j);
      }
    } else if j < m {
      Midpoint(m - 1);
      if j < m - 1 {
        ValueStrict(j, m - 1);
      }
    }
  }

  lemma Midpoint(m: nat)
    ensures Upper(m) - Value(m) == Value(m + 1) - Upper(m) > 0.0
  {
    hide Value;
    UpperBetween(m);
  }
}
