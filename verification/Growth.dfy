/**
 * Canonical output can be longer than the input: the four bytes 1e20 become the twenty-one bytes
 * of 100000000000000000000. With an input size or a number length of four, that output cannot be
 * read again.
 */
module Growth {
  import opened Bytes
  import opened Powers
  import opened Decimals
  import opened Doubles
  import opened Conversion
  import opened Tokens
  import opened Numbers
  import opened NumberText
  import opened Values
  import opened Grammar
  import opened Parsing
  import opened Canonical
  import opened Serializer
  import opened Theorems

  const SHORT_TEXT: ByteString := [0x31, LOWER_E, 0x32, 0x30]

  /** 10^20 is a double: 6103515625000000 * 2^14. */
  const TEN_TO_20: Magnitude := 1089 * HIDDEN_BIT + (6103515625000000 - HIDDEN_BIT)

  lemma TenTo20()
    ensures Doubles.Value(TEN_TO_20) == Ten(20) && Doubles.Value(TEN_TO_20 + 1) == Ten(20) + 16384.0
  {
    hide RealPow;
    assert TEN_TO_20 % HIDDEN_BIT == 6103515625000000 - HIDDEN_BIT && TEN_TO_20 / HIDDEN_BIT == 1089;
    RealPowNat(2, 14);
    RealPowNat(10, 20);
    assert Pow(2, 14) == 16384;
    Ten20();
    Gap(TEN_TO_20);
  }

  lemma Ten20()
    ensures Pow(10, 20) == 100000000000000000000
  {
    assert Pow(10, 5) == 100000;
    PowAdd(10, 5, 5);
    PowAdd(10, 10, 10);
  }

  lemma OneIsShortest()
    ensures IsShortest(TEN_TO_20, [1], 21)
  {
    hide Doubles.Value, RealPow, Pow;
    var m := TEN_TO_20;
    TenTo20();
    ValueInCell(m);
    OneDigit(1);
    assert Dec(1, 20) == Ten(20);
    assert !AtOrBelow(Ten(21), m) by {
      RealPowStep(10.0, 20);
      RealPowNat(10, 20);
      Ten20();
    }
    forall e: nat, p: int | e < Pow(10, 0) ensures !Reads(m, e, p) {
      assert Pow(10, 0) == 1 by { PowZero(); }
      ZeroNotRead(m, p);
    }
    forall e: int | Reads(m, e, 20) ensures NearerDecimal(m, 1, e, 20) {
      DecMonotone(1, e, 20);
    }
  }

  lemma ZeroNotRead(m: nat, p: int)
    requires m > 0
    ensures !Reads(m, 0, p)
  {
    hide Doubles.Value, Upper, RealPow;
    assert Dec(0, p) == 0.0;
    ValuesNonNegative(m - 1);
  }

  lemma PowZero()
    ensures Pow(10, 0) == 1
  {
  }

  lemma FormattedTenTo20()
    ensures FormatSpec(Finite(false, TEN_TO_20)).Ok?
    ensures |FormatSpec(Finite(false, TEN_TO_20)).value| == 21
  {
    hide IsShortest;
    OneIsShortest();
    var (ds, n) := ShortestDecimal(TEN_TO_20);
    ShortestUnique(TEN_TO_20, ds, n, [1], 21);
  }

  function ShortToken(): Token {
    Token(false, [1], NoFraction, Exponent(LOWER_E, NoSign, [2, 0]))
  }

  lemma ShortTokenReads()
    ensures WellFormed(ShortToken()) && TokenText(ShortToken()) == SHORT_TEXT
    ensures AcceptedNumber(ShortToken()) && FloatOf(ShortToken()) == Finite(false, TEN_TO_20)
  {
    hide Doubles.Value, RealPow, Round;
    var t := ShortToken();
    assert Ascii([2, 0]) == [0x32, 0x30] && Ascii([1]) == [0x31];
    assert t.whole + FractionDigits(t) == [1];
    OneDigit(1);
    OneDigit(0);
    assert [2, 0][1..] == [0];
    assert Number([2, 0]) == 20;
    assert AbsoluteValue(t) == Ten(20);
    RealPowPositive(10.0, 20);
    TenTo20();
    ValueInCell(TEN_TO_20);
    RoundIsCell(Ten(20), TEN_TO_20);
  }

  /** 1e20 is within the bounds. */
  ghost predicate AdmitsShort(l: Limits) {
    l.maxInputSize >= 4 && l.maxNumberChars >= 4 && l.maxValues >= 1
  }

  lemma ShortTextParses(l: Limits)
    requires AdmitsShort(l)
    ensures ParseText(SHORT_TEXT, l) == Ok(VNumber(Finite(false, TEN_TO_20)))
  {
    hide ParseText, Derives, TokenText, WellFormed, AcceptedNumber, FloatOf, ShortToken;
    ShortTokenReads();
    OneNumber(ShortToken(), SHORT_TEXT, TEN_TO_20, l);
    var d := Document([], JNumber(ShortToken()), []);
    DerivedIsParsed(d, SHORT_TEXT, l, VNumber(Finite(false, TEN_TO_20)));
  }

  /** A document that is one number. */
  lemma OneNumber(t: Token, text: ByteString, m: Magnitude, l: Limits)
    requires WellFormed(t) && TokenText(t) == text && AcceptedNumber(t) && FloatOf(t) == Finite(false, m)
    requires l.maxValues >= 1 && |text| <= l.maxNumberChars
    ensures Derives(Document([], JNumber(t), []), text, l, VNumber(Finite(false, m)))
  {
    hide TokenText, WellFormed, AcceptedNumber, FloatOf;
    assert [] + (text + []) == text;
  }

  /**
   * Canonicalizing twice is not always canonicalizing once: with bounds that admit 1e20, its output
   * is canonicalized again exactly when twenty-one bytes of input and of number are admitted.
   */
  lemma GrownOutput(l: Limits)
    requires AdmitsShort(l)
    ensures CanonicalizeSpec(SHORT_TEXT, l).Ok?
    ensures var out := CanonicalizeSpec(SHORT_TEXT, l).value;
      && |out| == 21
      && CanonicalizeSpec(out, l) ==
           if l.maxInputSize >= 21 && l.maxNumberChars >= 21 then Ok(out) else Err(BoundExceeded)
  {
    hide FormatSpec, ParseText, Emit, CanonicalizeSpec;
    ShortTextParses(l);
    ParserOutputSerializes(SHORT_TEXT, l);
    EmitNumber();
    FormattedTenTo20();
    IdempotentExactly(SHORT_TEXT, l);
  }

  function ShortInputs(): Limits {
    DEFAULT_LIMITS.(maxInputSize := 4)
  }

  function ShortNumbers(): Limits {
    DEFAULT_LIMITS.(maxNumberChars := 4)
  }

  /** An input size of four: the output is too long. */
  lemma OutputTooLongToReadBack()
    ensures CanonicalizeSpec(SHORT_TEXT, ShortInputs()).Ok?
    ensures var out := CanonicalizeSpec(SHORT_TEXT, ShortInputs()).value;
      |out| == 21 && CanonicalizeSpec(out, ShortInputs()) == Err(BoundExceeded)
  {
    hide CanonicalizeSpec;
    GrownOutput(ShortInputs());
  }

  /** A number length of four: the output is far within the input size, but its number is too long. */
  lemma NumberTooLongToReadBack()
    ensures CanonicalizeSpec(SHORT_TEXT, ShortNumbers()).Ok?
    ensures var out := CanonicalizeSpec(SHORT_TEXT, ShortNumbers()).value;
      |out| <= ShortNumbers().maxInputSize && CanonicalizeSpec(out, ShortNumbers()) == Err(BoundExceeded)
  {
    hide CanonicalizeSpec;
    GrownOutput(ShortNumbers());
  }

  lemma EmitNumber()
    ensures Emit(VNumber(Finite(false, TEN_TO_20))) == FormatSpec(Finite(false, TEN_TO_20))
  {
  }
}
