/** The layout of a decimal by Number::toString (section 6.1.6.1.20 of ECMA-262). */
module Layout {
  import opened Bytes
  import opened Powers
  import opened Decimals
  import opened Tokens

  /** The decimal digits of a natural number. */
  function DigitsOf(v: nat): seq<nat> {
    if v < 10 then [v] else DigitsOf(v / 10) + [v % 10]
  }

  /** The token that a significand, an exponent and a sign are laid out as. */
  function CanonicalToken(negative: bool, ds: seq<nat>, n: int): Token
    requires |ds| > 0
  {
    var k := |ds|;
    if k <= n <= 21 then
      Token(negative, ds + Zeros(n - k), NoFraction, NoExponent)
    else if 0 < n <= 21 then
      Token(negative, ds[..n], Fraction(ds[n..]), NoExponent)
    else if -6 < n <= 0 then
      Token(negative, [0], Fraction(Zeros(-n) + ds), NoExponent)
    else
      Token(negative, [ds[0]], if k > 1 then Fraction(ds[1..]) else NoFraction,
            Exponent(LOWER_E, if n - 1 >= 0 then PlusSign else MinusSign,
                     DigitsOf(if n - 1 >= 0 then n - 1 else 1 - n)))
  }

  lemma {:induction false} DigitsOfCorrect(v: nat)
    ensures var ds := DigitsOf(v);
      && |ds| > 0 && AllDigits(ds) && Number(ds) == v && (|ds| > 1 ==> ds[0] != 0)
  {
    if v >= 10 {
      DigitsOfCorrect(v / 10);
      NumberConcat(DigitsOf(v / 10), [v % 10]);
      OneDigit(v % 10);
      if |DigitsOf(v / 10)| == 1 {
        OneDigit(DigitsOf(v / 10)[0]);
        assert DigitsOf(v / 10) == [DigitsOf(v / 10)[0]];
      }
    } else {
      OneDigit(v);
    }
  }

  lemma CanonicalTokenWellFormed(negative: bool, ds: seq<nat>, n: int)
    requires Normalized(ds)
    ensures WellFormed(CanonicalToken(negative, ds, n))
  {
    DigitsOfCorrect(if n - 1 >= 0 then n - 1 else 1 - n);
  }

  /** The layout preserves the value exactly, in all four forms. */
  lemma LayoutPreservesValue(negative: bool, ds: seq<nat>, n: int)
    requires Normalized(ds)
    ensures AbsoluteValue(CanonicalToken(negative, ds, n)) == DecimalValue(ds, n)
  {
    hide Dec, DigitsOf, Number, Pow;
    var t := CanonicalToken(negative, ds, n);
    var k := |ds|;
    if k <= n <= 21 {
      assert t.whole + FractionDigits(t) == ds + Zeros(n - k);
      TrailingZeros(ds, n - k);
    } else if 0 < n <= 21 {
      assert t.whole + FractionDigits(t) == ds;
    } else if -6 < n <= 0 {
      assert t.whole + FractionDigits(t) == Zeros(1 - n) + ds;
      LeadingZeros(ds, 1 - n);
    } else {
      assert t.whole + FractionDigits(t) == ds;
      DigitsOfCorrect(if n - 1 >= 0 then n - 1 else 1 - n);
    }
  }

  lemma TrailingZeros(ds: seq<nat>, k: nat)
    ensures Dec(Number(ds + Zeros(k)), 0) == Dec(Number(ds), k)
  {
    hide RealPow, Number, Pow;
    NumberConcat(ds, Zeros(k));
    NumberZeros(k);
    DecShift(Number(ds), 0, k);
  }

  lemma LeadingZeros(ds: seq<nat>, k: nat)
    ensures Number(Zeros(k) + ds) == Number(ds)
  {
    hide Number, Pow;
    NumberConcat(Zeros(k), ds);
    NumberZeros(k);
  }

  /** Sign, digits and exponent can be read off the token's value and sign. */
  lemma LayoutInjective(s: bool, a: seq<nat>, m: int, t: bool, b: seq<nat>, n: int)
    requires Normalized(a) && Normalized(b)
    requires CanonicalToken(s, a, m) == CanonicalToken(t, b, n)
    ensures s == t && a == b && m == n
  {
    hide Number, Dec;
    LayoutPreservesValue(s, a, m);
    LayoutPreservesValue(t, b, n);
    DecimalValueInjective(a, m, b, n);
  }

  const MAX_NUMBER_TEXT: nat := 25

  lemma TwoDigits(v: nat)
    requires v < 100
    ensures |DigitsOf(v)| <= 2
  {
    if v >= 10 {
      assert DigitsOf(v / 10) == [v / 10];
    }
  }

  lemma ThreeDigits(v: nat)
    requires v < 1000
    ensures |DigitsOf(v)| <= 3
  {
    if v >= 10 {
      TwoDigits(v / 10);
    }
  }

  /** With 17 digits and an exponent of at most three, the text has at most 25 bytes. */
  lemma LayoutLength(negative: bool, ds: seq<nat>, n: int)
    requires Normalized(ds) && |ds| <= 17 && -998 < n <= 1000
    ensures WellFormed(CanonicalToken(negative, ds, n))
    ensures |TokenText(CanonicalToken(negative, ds, n))| <= MAX_NUMBER_TEXT
  {
    CanonicalTokenWellFormed(negative, ds, n);
    ThreeDigits(if n - 1 >= 0 then n - 1 else 1 - n);
  }

  // ---------- the formatter ----------

  lemma AsciiConcat(a: seq<nat>, b: seq<nat>)
    requires AllDigits(a) && AllDigits(b)
    ensures AllDigits(a + b) && Ascii(a + b) == Ascii(a) + Ascii(b)
  {
  }

  lemma PowStep(i: nat)
    ensures Pow(10, i + 1) == 10 * Pow(10, i)
  {
  }

  lemma TwentyDigits(w: nat)
    requires w < 0x8000_0000_0000_0000
    ensures w < Pow(10, 20)
  {
    assert Pow(10, 5) == 100000;
    PowAdd(10, 5, 5);
    PowAdd(10, 10, 10);
  }

  method AppendZeros(buf: ByteString, count: int) returns (out: ByteString)
    requires count >= 0
    ensures out == buf + Ascii(Zeros(count))
  {
    out := buf;
    var i := 0;
    while i < count
      invariant 0 <= i <= count
      invariant out == buf + Ascii(Zeros(i))
    {
      out := out + [ZERO];
      i := i + 1;
      assert Ascii(Zeros(i)) == Ascii(Zeros(i - 1)) + [ZERO];
    }
  }

  /** The digits of `w` that have not been written yet. */
  ghost function Pending(w: nat): ByteString {
    DigitsOfCorrect(w);
    if w == 0 then [] else Ascii(DigitsOf(w))
  }

  lemma NonePending()
    ensures Pending(0) == [] && Pow(10, 0) == 1
  {
  }

  lemma PendingText(w: nat)
    ensures AllDigits(DigitsOf(w))
    ensures if w == 0 then Ascii(DigitsOf(w)) == [ZERO] else Pending(w) == Ascii(DigitsOf(w))
  {
    DigitsOfCorrect(w);
  }

  lemma PendingStep(w: nat)
    requires w > 0
    ensures Pending(w) == Pending(w / 10) + [ZERO + w % 10]
  {
    DigitsOfCorrect(w);
    DigitsOfCorrect(w / 10);
  }

  /** Decimal text of a machine integer, filled into a 20-byte scratch array from its end. */
  method AppendInt(buf: ByteString, v: int) returns (out: ByteString)
    requires -0x8000_0000_0000_0000 < v < 0x8000_0000_0000_0000
    ensures AllDigits(DigitsOf(if v < 0 then -v else v))
    ensures out == buf + (MinusText(v < 0) + Ascii(DigitsOf(if v < 0 then -v else v)))
  {
    hide DigitsOf, Number, Pow;
    var w := if v < 0 then -v else v;
    DigitsOfCorrect(w);
    PendingText(w);
    out := buf;
    if v < 0 {
      out := out + [MINUS];
    }
    if w == 0 {
      out := out + [ZERO];
      return;
    }
    var tmp := new Byte[20];
    var i := 20;
    TwentyDigits(w);
    ghost var all := Pending(w);
    hide Pending;
    assert Pending(w) + tmp[20..] == all;
    NonePending();
    while w > 0
      invariant 0 <= i <= 20 && 0 <= w < Pow(10, i)
      invariant tmp.Length == 20
      invariant Pending(w) + tmp[i..] == all
      decreases w
    {
      ghost var written := tmp[i..];
      PendingStep(w);
      i := i - 1;
      tmp[i] := ZERO + w % 10;
      PowStep(i);
      w := w / 10;
      assert tmp[i..] == [tmp[i]] + written;
    }
    out := out + tmp[i..];
  }

  /** The mantissa and the exponent of the exponential layout, each as text. */
  lemma ExponentialText(ds: seq<nat>, n: int)
    requires Normalized(ds) && !(-6 < n <= 21)
    ensures WellFormed(CanonicalToken(false, ds, n))
    ensures var v := if n - 1 < 0 then 1 - n else n - 1;
      && AllDigits(DigitsOf(v))
      && UnsignedText(CanonicalToken(false, ds, n)) ==
         ([Ascii(ds)[0]] + if |ds| > 1 then [POINT] + Ascii(ds)[1..] else [])
         + ([LOWER_E] + ((if n - 1 < 0 then [MINUS] else [PLUS]) + Ascii(DigitsOf(v))))
  {
    hide Number, DigitsOf, Ascii;
    CanonicalTokenWellFormed(false, ds, n);
    var v := if n - 1 < 0 then 1 - n else n - 1;
    DigitsOfCorrect(v);
    var lead, more := [Ascii(ds)[0]], if |ds| > 1 then [POINT] + Ascii(ds)[1..] else [];
    var exponent := [LOWER_E] + ((if n - 1 < 0 then [MINUS] else [PLUS]) + Ascii(DigitsOf(v)));
    LeadText(ds);
    assert UnsignedText(CanonicalToken(false, ds, n)) == lead + (more + exponent);
    AppendAssociative(lead, more, exponent);
  }

  lemma LeadText(ds: seq<nat>)
    requires ds != [] && AllDigits(ds)
    ensures AllDigits([ds[0]]) && Ascii([ds[0]]) == [Ascii(ds)[0]]
    ensures AllDigits(ds[1..]) && Ascii(ds[1..]) == Ascii(ds)[1..]
  {
  }

  method AppendExponential(buf: ByteString, digits: ByteString, k: int, n: int, ghost ds: seq<nat>)
    returns (out: ByteString)
    requires Normalized(ds) && digits == Ascii(ds) && k == |ds|
    requires -0x4000_0000_0000_0000 < n < 0x4000_0000_0000_0000
    requires !(-6 < n <= 21)
    ensures WellFormed(CanonicalToken(false, ds, n))
    ensures out == buf + UnsignedText(CanonicalToken(false, ds, n))
  {
    hide DigitsOf, Number, Ascii, UnsignedText, CanonicalToken;
    ExponentialText(ds, n);
    out := buf + [digits[0]];
    if k > 1 {
      out := out + [POINT];
      out := out + digits[1..];
    }
    out := out + [LOWER_E];
    var exp := n - 1;
    if exp >= 0 {
      out := out + [PLUS];
    }
    out := AppendInt(out, exp);
  }

  method AppendIntegerFixed(buf: ByteString, digits: ByteString, k: int, n: int, ghost ds: seq<nat>)
    returns (out: ByteString)
    requires Normalized(ds) && digits == Ascii(ds) && k == |ds| && k <= n <= 21
    ensures WellFormed(CanonicalToken(false, ds, n))
    ensures out == buf + UnsignedText(CanonicalToken(false, ds, n))
  {
    out := buf + digits;
    out := AppendZeros(out, n - k);
    AsciiConcat(ds, Zeros(n - k));
  }

  lemma FractionFixedText(ds: seq<nat>, n: int)
    requires Normalized(ds) && 0 < n <= 21 && n < |ds|
    ensures WellFormed(CanonicalToken(false, ds, n))
    ensures UnsignedText(CanonicalToken(false, ds, n)) == Ascii(ds)[..n] + ([POINT] + Ascii(ds)[n..])
  {
    hide DigitsOf, Number;
    assert Ascii(ds)[..n] == Ascii(ds[..n]) && Ascii(ds)[n..] == Ascii(ds[n..]);
  }

  method AppendFractionFixed(buf: ByteString, digits: ByteString, n: int, ghost ds: seq<nat>)
    returns (out: ByteString)
    requires Normalized(ds) && digits == Ascii(ds) && 0 < n <= 21 && n < |ds|
    ensures WellFormed(CanonicalToken(false, ds, n))
    ensures out == buf + UnsignedText(CanonicalToken(false, ds, n))
  {
    hide DigitsOf, Number;
    FractionFixedText(ds, n);
    out := buf + digits[..n];
    out := out + [POINT];
    out := out + digits[n..];
  }

  method AppendSmallFraction(buf: ByteString, digits: ByteString, n: int, ghost ds: seq<nat>)
    returns (out: ByteString)
    requires Normalized(ds) && digits == Ascii(ds) && -6 < n <= 0
    ensures WellFormed(CanonicalToken(false, ds, n))
    ensures out == buf + UnsignedText(CanonicalToken(false, ds, n))
  {
    out := buf + [ZERO, POINT];
    out := AppendZeros(out, -n);
    out := out + digits;
    AsciiConcat(Zeros(-n), ds);
    assert Ascii([0]) == [ZERO];
  }

  /** The layout of 0.digits * 10^n is the text of the canonical token. */
  method FormatEcma(negative: bool, digits: ByteString, n: int, ghost ds: seq<nat>)
    returns (out: ByteString)
    requires Normalized(ds) && digits == Ascii(ds)
    requires -0x4000_0000_0000_0000 < n < 0x4000_0000_0000_0000
    ensures WellFormed(CanonicalToken(negative, ds, n))
    ensures out == TokenText(CanonicalToken(negative, ds, n))
  {
    CanonicalTokenWellFormed(negative, ds, n);
    var k := |digits|;
    out := [];
    if negative {
      out := out + [MINUS];
    }
    assert out == MinusText(negative);
    if k <= n && n <= 21 {
      out := AppendIntegerFixed(out, digits, k, n, ds);
    } else if 0 < n && n <= 21 {
      out := AppendFractionFixed(out, digits, n, ds);
    } else if -6 < n && n <= 0 {
      out := AppendSmallFraction(out, digits, n, ds);
    } else {
      out := AppendExponential(out, digits, k, n, ds);
    }
  }
}
