/** What a double is printed as, and that reading it back gives the double. */
module NumberText {
  import opened Bytes
  import opened Decimals
  import opened Doubles
  import opened Shortest
  import opened Conversion
  import opened Tokens
  import opened Layout

  /** The text of a double: the layout of its printed decimal, and "0" for either zero. */
  ghost function NumberToken(negative: bool, m: Magnitude): (t: Token)
    ensures WellFormed(t)
  {
    if m == 0 then Token(false, [0], NoFraction, NoExponent)
    else
      var (ds, n) := ShortestDecimal(m);
      CanonicalTokenWellFormed(negative, ds, n);
      CanonicalToken(negative, ds, n)
  }

  ghost function FormatSpec(f: Float): Result<ByteString> {
    if f.Finite? then Ok(TokenText(NumberToken(f.negative, f.magnitude))) else Err(InvalidGrammar)
  }

  lemma ZeroText(negative: bool)
    ensures TokenText(NumberToken(negative, 0)) == [ZERO]
  {
    var t := NumberToken(negative, 0);
    assert Ascii(t.whole) == [ZERO];
  }

  /** Formatted numbers have at most 25 bytes. */
  lemma FormattedLength(negative: bool, m: Magnitude)
    ensures |TokenText(NumberToken(negative, m))| <= MAX_NUMBER_TEXT
  {
    if m > 0 {
      var (ds, n) := ShortestDecimal(m);
      ExponentRange(m, n);
      AtMost17(m);
      LayoutLength(negative, ds, n);
    }
  }

  lemma AtMost17(m: NonZero)
    ensures |ShortestDecimal(m).0| <= MAX_DIGITS
  {
    HighEstimateAdmissible(m);
    GenerateIsShortest(m, 309);
    var (ds, n) := Generate(m, 309);
    ShortestUnique(m, ds, n, ShortestDecimal(m).0, ShortestDecimal(m).1);
  }

  /** The value of the formatted token rounds to the double that was formatted. */
  lemma FormattedTokenReadsBack(negative: bool, m: Magnitude)
    ensures Round(AbsoluteValue(NumberToken(negative, m))) == m
    ensures AbsoluteValue(NumberToken(negative, m)) == 0.0 <==> m == 0
  {
    var t := NumberToken(negative, m);
    if m == 0 {
      OneDigit(0);
      assert t.whole + FractionDigits(t) == [0];
      ZeroValue(t);
      ValuesNonNegative(0);
      RoundIsCell(0.0, 0);
    } else {
      var (ds, n) := ShortestDecimal(m);
      LayoutPreservesValue(negative, ds, n);
      DecimalRoundTrip(m);
      ZeroValue(t);
      ValuesNonNegative(m - 1);
      if AbsoluteValue(t) == 0.0 {
        RoundIsCell(0.0, m);
      }
    }
  }
}
