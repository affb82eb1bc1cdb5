/**
 * The form of printed numbers by their value, without the digit counts of the layout: positional from
 * 10^-6 up to 10^21, scientific elsewhere, and nothing superfluous. It leaves one token for a value.
 */
module Forms {
  import opened Bytes
  import opened Powers
  import opened Decimals
  import opened Doubles
  import opened Conversion
  import opened Tokens
  import opened Layout
  import opened Numbers
  import opened NumberText

  /** No exponent, and no fraction that could be shorter. */
  ghost predicate PlainForm(t: Token) {
    t.exponent.NoExponent? && NoTrailingZero(t.fraction)
  }

  /** One nonzero digit before the point, and a signed exponent without leading zeros. */
  ghost predicate ScientificForm(t: Token) {
    && |t.whole| == 1 && t.whole[0] != 0 && NoTrailingZero(t.fraction)
    && t.exponent.Exponent? && t.exponent.mark == LOWER_E && t.exponent.sign != NoSign
    && NoLeadingZero(t.exponent.digits)
  }

  ghost predicate NoTrailingZero(f: Fraction) {
    f.Fraction? ==> |f.digits| > 0 && f.digits[|f.digits| - 1] != 0
  }

  ghost predicate NoLeadingZero(ds: seq<nat>) {
    |ds| > 0 && (|ds| > 1 ==> ds[0] != 0)
  }

  ghost predicate Positional(x: real) {
    Ten(-6) <= x < Ten(21)
  }

  ghost predicate EcmaForm(t: Token) {
    if Positional(AbsoluteValue(t)) then PlainForm(t) else ScientificForm(t)
  }

  // ---------- the layout has the form ----------

  /** A decimal 0.ds * 10^n lies from 10^(n-1) up to 10^n. */
  lemma DecimalRange(ds: seq<nat>, n: int)
    requires Normalized(ds)
    ensures Ten(n - 1) <= DecimalValue(ds, n) < Ten(n)
  {
    hide Number, Pow, RealPow;
    var k := |ds|;
    NumberLead(ds);
    NumberBound(ds);
    DecShift(1, n - k, k - 1);
    DecShift(1, n - k, k);
    DecMonotone(Pow(10, k - 1), Number(ds), n - k);
    DecMonotone(Number(ds), Pow(10, k), n - k);
    assert Dec(1, n - 1) == Ten(n - 1) && Dec(1, n) == Ten(n);
  }

  lemma PositionalByExponent(ds: seq<nat>, n: int)
    requires Normalized(ds)
    ensures Positional(DecimalValue(ds, n)) <==> -6 < n <= 21
  {
    hide DecimalValue, RealPow;
    DecimalRange(ds, n);
    if n > -5 { RealPowStrict(10.0, -6, n - 1); }
    if n < -6 { RealPowStrict(10.0, n, -6); }
    if n < 21 { RealPowStrict(10.0, n, 21); }
    if n > 22 { RealPowStrict(10.0, 21, n - 1); }
  }

  lemma LayoutForm(negative: bool, ds: seq<nat>, n: int)
    requires Normalized(ds)
    ensures var t := CanonicalToken(negative, ds, n); WellFormed(t) && t.negative == negative && EcmaForm(t)
  {
    hide AbsoluteValue, DecimalValue, DigitsOf, Positional, Number;
    CanonicalTokenWellFormed(negative, ds, n);
    LayoutPreservesValue(negative, ds, n);
    PositionalByExponent(ds, n);
    DigitsOfCorrect(if n - 1 >= 0 then n - 1 else 1 - n);
  }

  // ---------- the form determines the token ----------

  /** Digits without a leading zero are determined by their number. */
  lemma NoLeadingUnique(a: seq<nat>, b: seq<nat>)
    requires AllDigits(a) && AllDigits(b) && NoLeadingZero(a) && NoLeadingZero(b) && Number(a) == Number(b)
    ensures a == b
  {
    hide Number, Pow;
    NumberBound(a);
    NumberBound(b);
    if |a| < |b| {
      NumberLead(b);
      PowMonotone(10, |a|, |b| - 1);
    } else if |b| < |a| {
      NumberLead(a);
      PowMonotone(10, |b|, |a| - 1);
    }
    NumberInjective(a, b);
  }

  /** A fraction that does not end in zero makes the number one of its place and no coarser one. */
  lemma FractionPlaces(t: Token, u: Token)
    requires WellFormed(t) && WellFormed(u) && PlainForm(t) && PlainForm(u)
    requires AbsoluteValue(t) == AbsoluteValue(u)
    ensures |FractionDigits(t)| >= |FractionDigits(u)|
  {
    hide Number, Pow, Dec;
    var f, g := FractionDigits(t), FractionDigits(u);
    if |f| < |g| {
      var a, b := t.whole + f, u.whole + g;
      var d := |g| - |f|;
      assert b[|b| - 1] == g[|g| - 1] != 0;
      NumberLast(b);
      DecShift(Number(a), -|g|, d);
      DecMonotone(Number(a) * Pow(10, d), Number(b), -|g|);
      MultipleOfTen(Number(a), d);
      assert false;
    }
  }

  lemma PlainUnique(t: Token, u: Token)
    requires WellFormed(t) && WellFormed(u) && PlainForm(t) && PlainForm(u)
    requires t.negative == u.negative && AbsoluteValue(t) == AbsoluteValue(u)
    ensures t == u
  {
    hide Number, Pow, Dec;
    FractionPlaces(t, u);
    FractionPlaces(u, t);
    var f, g := FractionDigits(t), FractionDigits(u);
    DecMonotone(Number(t.whole + f), Number(u.whole + g), -|f|);
    NumberConcat(t.whole, f);
    NumberConcat(u.whole, g);
    NumberBound(f);
    NumberBound(g);
    LeadingQuotient(Number(t.whole), Number(u.whole), Pow(10, |f|), Number(f), Number(g));
    NoLeadingUnique(t.whole, u.whole);
    NumberInjective(f, g);
  }

  /** Digits and exponent of a number in scientific form. */
  lemma ScientificValue(t: Token)
    requires WellFormed(t) && ScientificForm(t)
    ensures var ds := t.whole + FractionDigits(t);
      Normalized(ds) && AbsoluteValue(t) == DecimalValue(ds, ExponentValue(t) + 1)
  {
  }

  lemma ScientificUnique(t: Token, u: Token)
    requires WellFormed(t) && WellFormed(u) && ScientificForm(t) && ScientificForm(u)
    requires t.negative == u.negative && AbsoluteValue(t) == AbsoluteValue(u) && !Positional(AbsoluteValue(t))
    ensures t == u
  {
    hide Number, DecimalValue, AbsoluteValue, Positional;
    var a, b := t.whole + FractionDigits(t), u.whole + FractionDigits(u);
    ScientificValue(t);
    ScientificValue(u);
    DecimalValueInjective(a, ExponentValue(t) + 1, b, ExponentValue(u) + 1);
    PositionalByExponent(a, ExponentValue(t) + 1);
    assert a[0] == t.whole[0] && b[0] == u.whole[0] && a[1..] == FractionDigits(t) && b[1..] == FractionDigits(u);
    NoLeadingUnique(t.exponent.digits, u.exponent.digits);
  }

  /** Of all number tokens with one sign and value, one has the form. */
  lemma FormUnique(t: Token, u: Token)
    requires WellFormed(t) && WellFormed(u) && EcmaForm(t) && EcmaForm(u)
    requires t.negative == u.negative && AbsoluteValue(t) == AbsoluteValue(u)
    ensures t == u
  {
    hide WellFormed, PlainForm, ScientificForm, AbsoluteValue, Positional;
    if Positional(AbsoluteValue(t)) {
      PlainUnique(t, u);
    } else {
      ScientificUnique(t, u);
    }
  }

  /** A number in plain form has a fraction exactly when it is not a whole number. */
  lemma FractionExactly(t: Token, i: int)
    requires WellFormed(t) && PlainForm(t) && AbsoluteValue(t) == i as real
    ensures t.fraction.NoFraction?
  {
    hide Number, Pow, Dec;
    var f := FractionDigits(t);
    if t.fraction.Fraction? {
      var a := t.whole + f;
      assert a[|a| - 1] == f[|f| - 1] != 0;
      NumberLast(a);
      WholeDec(i);
      DecShift(i, -|f|, |f|);
      DecMonotone(i * Pow(10, |f|), Number(a), -|f|);
      NonNegative(i, Number(a), Pow(10, |f|));
      MultipleOfTen(i, |f|);
      assert false;
    }
  }

  lemma WholeDec(i: int)
    ensures Dec(i, 0) == i as real
  {
  }

  lemma NonNegative(i: int, x: nat, p: nat)
    requires i * p == x
    ensures i >= 0 || x == 0
  {
  }

  // ---------- formatted doubles ----------

  /** The text of a nonzero double is that of the one token of this form that equals its printed decimal. */
  lemma FormattedExactly(negative: bool, m: NonZero, t: Token)
    requires WellFormed(t)
    ensures var (ds, n) := ShortestDecimal(m);
      t == NumberToken(negative, m) <==>
        t.negative == negative && AbsoluteValue(t) == DecimalValue(ds, n) && EcmaForm(t)
    ensures FormatSpec(Finite(negative, m)) == Ok(TokenText(t)) <==> t == NumberToken(negative, m)
  {
    hide WellFormed, EcmaForm, AbsoluteValue, DecimalValue, CanonicalToken, TokenText;
    if TokenText(t) == TokenText(NumberToken(negative, m)) {
      TokenTextInjective(t, NumberToken(negative, m));
    }
    var (ds, n) := ShortestDecimal(m);
    LayoutForm(negative, ds, n);
    LayoutPreservesValue(negative, ds, n);
    assert NumberToken(negative, m) == CanonicalToken(negative, ds, n);
    if t.negative == negative && AbsoluteValue(t) == DecimalValue(ds, n) && EcmaForm(t) {
      FormUnique(t, CanonicalToken(negative, ds, n));
    }
  }
}
