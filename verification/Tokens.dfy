/** The number grammar of section 6 of RFC 8259, and what a number token denotes. */
module Tokens {
  import opened Bytes
  import opened Powers
  import opened Decimals

  datatype Fraction = NoFraction | Fraction(digits: seq<nat>)

  datatype Sign = NoSign | PlusSign | MinusSign

  datatype Exponent = NoExponent | Exponent(mark: Byte, sign: Sign, digits: seq<nat>)

  /** number = [ minus ] int [ frac ] [ exp ] */
  datatype Token = Token(negative: bool, whole: seq<nat>, fraction: Fraction, exponent: Exponent)

  ghost predicate WellFormed(t: Token) {
    && |t.whole| > 0 && AllDigits(t.whole) && (|t.whole| > 1 ==> t.whole[0] != 0)
    && (t.fraction.Fraction? ==> |t.fraction.digits| > 0 && AllDigits(t.fraction.digits))
    && (t.exponent.Exponent? ==>
      && (t.exponent.mark == LOWER_E || t.exponent.mark == UPPER_E)
      && |t.exponent.digits| > 0 && AllDigits(t.exponent.digits))
  }

  // ---------- concrete text ----------

  function Ascii(ds: seq<nat>): (s: ByteString)
    requires AllDigits(ds)
    ensures |s| == |ds| && forall i | 0 <= i < |s| :: s[i] == ZERO + ds[i]
  {
    seq(|ds|, i requires 0 <= i < |ds| => ZERO + ds[i])
  }

  function SignText(s: Sign): ByteString {
    match s
    case NoSign => []
    case PlusSign => [PLUS]
    case MinusSign => [MINUS]
  }

  function FractionText(f: Fraction): ByteString
    requires f.Fraction? ==> AllDigits(f.digits)
  {
    if f.Fraction? then [POINT] + Ascii(f.digits) else []
  }

  function ExponentText(e: Exponent): ByteString
    requires e.Exponent? ==> AllDigits(e.digits)
  {
    if e.Exponent? then [e.mark] + (SignText(e.sign) + Ascii(e.digits)) else []
  }

  function MinusText(negative: bool): ByteString {
    if negative then [MINUS] else []
  }

  function TokenText(t: Token): ByteString
    requires WellFormed(t)
  {
    MinusText(t.negative) + UnsignedText(t)
  }

  function UnsignedText(t: Token): ByteString
    requires WellFormed(t)
  {
    Ascii(t.whole) + (FractionText(t.fraction) + ExponentText(t.exponent))
  }

  // ---------- denotation ----------

  function FractionDigits(t: Token): seq<nat> {
    if t.fraction.Fraction? then t.fraction.digits else []
  }

  function ExponentValue(t: Token): int {
    if t.exponent.NoExponent? then 0
    else if t.exponent.sign == MinusSign then 0 - Number(t.exponent.digits)
    else Number(t.exponent.digits)
  }

  /** The absolute value of the number a token denotes. */
  function AbsoluteValue(t: Token): (x: real)
    ensures x >= 0.0
  {
    var x := Dec(Number(t.whole + FractionDigits(t)), ExponentValue(t) - |FractionDigits(t)|);
    RealPowPositive(10.0, ExponentValue(t) - |FractionDigits(t)|);
    assert x >= 0.0;
    x
  }

  lemma ZeroValue(t: Token)
    ensures AbsoluteValue(t) == 0.0 <==> Number(t.whole + FractionDigits(t)) == 0
  {
    var q := ExponentValue(t) - |FractionDigits(t)|;
    DecMonotone(Number(t.whole + FractionDigits(t)), 0, q);
  }
}
