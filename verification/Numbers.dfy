/** Scanning number tokens and reading them as binary64. */
module Numbers {
  import opened Bytes
  import opened Powers
  import opened Decimals
  import opened Doubles
  import opened Tokens

  predicate IsExponentMark(b: int) {
    b == LOWER_E || b == UPPER_E
  }

  // ---------- scanning, with the token-length bound checked while digits are consumed ----------

  /**
   * Skips a run of digits. `total` is the length of the input from the start of the token,
   * so the token has `total - |s|` bytes so far.
   */
  function ScanDigits(s: ByteString, total: nat, maxChars: int): (r: Result<ByteString>)
    ensures r.Ok? ==> |r.value| <= |s|
  {
    if s == [] || !IsDigit(s[0]) then Ok(s)
    else if total - |s[1..]| > maxChars then Err(BoundExceeded)
    else ScanDigits(s[1..], total, maxChars)
  }

  function ScanInteger(s: ByteString, total: nat, maxChars: int): (r: Result<ByteString>)
    ensures r.Ok? ==> |r.value| < |s|
  {
    if s == [] then Err(InvalidGrammar)
    else if s[0] == ZERO then
      if |s| > 1 && IsDigit(s[1]) then Err(InvalidGrammar) else Ok(s[1..])
    else if !IsDigit(s[0]) then Err(InvalidGrammar)
    else if total - |s[1..]| > maxChars then Err(BoundExceeded)
    else ScanDigits(s[1..], total, maxChars)
  }

  function ScanFraction(s: ByteString, total: nat, maxChars: int): (r: Result<ByteString>)
    ensures r.Ok? ==> |r.value| <= |s|
  {
    if s == [] || s[0] != POINT then Ok(s)
    else if s[1..] == [] || !IsDigit(s[1]) then Err(InvalidGrammar)
    else ScanDigits(s[1..], total, maxChars)
  }

  function ScanExponent(s: ByteString, total: nat, maxChars: int): (r: Result<ByteString>)
    ensures r.Ok? ==> |r.value| <= |s|
  {
    if s == [] || !IsExponentMark(s[0]) then Ok(s)
    else
      var t := s[1..];
      var u := if t != [] && (t[0] == PLUS || t[0] == MINUS) then t[1..] else t;
      if u == [] || !IsDigit(u[0]) then Err(InvalidGrammar) else ScanDigits(u, total, maxChars)
  }

  /** The rest of the input after the number token at its front. */
  function ScanToken(s: ByteString, maxChars: int): (r: Result<ByteString>)
    ensures r.Ok? ==> |r.value| < |s|
  {
    var t := if s != [] && s[0] == MINUS then s[1..] else s;
    match ScanInteger(t, |s|, maxChars)
    case Err(e) => Err(e)
    case Ok(u) =>
      match ScanFraction(u, |s|, maxChars)
      case Err(e) => Err(e)
      case Ok(v) =>
        match ScanExponent(v, |s|, maxChars)
        case Err(e) => Err(e)
        case Ok(w) => if |s| - |w| > maxChars then Err(BoundExceeded) else Ok(w)
  }

  // ---------- reading ----------

  /** The leading digits of `s`, and what follows them. */
  function DigitRun(s: ByteString): (r: (seq<nat>, ByteString))
    ensures |r.0| + |r.1| == |s|
  {
    if s == [] || !IsDigit(s[0]) then ([], s)
    else
      var (ds, rest) := DigitRun(s[1..]);
      ([s[0] - ZERO] + ds, rest)
  }

  function ReadFraction(s: ByteString): (Fraction, ByteString) {
    if s != [] && s[0] == POINT then
      var (ds, rest) := DigitRun(s[1..]);
      (Fraction(ds), rest)
    else (NoFraction, s)
  }

  function ReadSign(s: ByteString): (Sign, ByteString) {
    if s == [] then (NoSign, s)
    else if s[0] == PLUS then (PlusSign, s[1..])
    else if s[0] == MINUS then (MinusSign, s[1..])
    else (NoSign, s)
  }

  function ReadExponent(s: ByteString): (Exponent, ByteString) {
    if s != [] && IsExponentMark(s[0]) then
      var (sign, t) := ReadSign(s[1..]);
      var (ds, rest) := DigitRun(t);
      (Exponent(s[0], sign, ds), rest)
    else (NoExponent, s)
  }

  /** The longest number token at the front of `s`, and what follows it. */
  function ReadToken(s: ByteString): (Token, ByteString) {
    var negative := s != [] && s[0] == MINUS;
    var (whole, t) := DigitRun(if negative then s[1..] else s);
    var (fraction, u) := ReadFraction(t);
    var (exponent, rest) := ReadExponent(u);
    (Token(negative, whole, fraction, exponent), rest)
  }

  /** The double nearest to what a token denotes; `Inf` on overflow. */
  function FloatOf(t: Token): Float {
    var m := Round(AbsoluteValue(t));
    if m == INFINITE then Inf(t.negative) else Finite(t.negative, m)
  }

  /** Correctly rounded decimal-to-binary conversion of a number token. */
  function ParseFloat(raw: ByteString): Float {
    FloatOf(ReadToken(raw).0)
  }

  /** No digit other than 0 before the exponent. */
  function ZeroSignificand(s: ByteString): bool {
    s == [] || IsExponentMark(s[0]) || (!(0x31 <= s[0] <= NINE) && ZeroSignificand(s[1..]))
  }

  function TokenRepresentsZero(raw: ByteString): bool {
    ZeroSignificand(if raw != [] && raw[0] == MINUS then raw[1..] else raw)
  }

  function BuildNumber(raw: ByteString): Result<Float> {
    var f := ParseFloat(raw);
    if f.NaN? || f.Inf? then Err(NumberOverflow)
    else if raw != [] && raw[0] == MINUS && TokenRepresentsZero(raw) then Err(NumberNegZero)
    else if f.magnitude == 0 && !TokenRepresentsZero(raw) then Err(NumberUnderflow)
    else Ok(f)
  }

  datatype ScannedNumber = ScannedNumber(num: Float, rest: ByteString)

  function ScanNumber(s: ByteString, maxChars: int): (r: Result<ScannedNumber>)
    ensures r.Ok? ==> |r.value.rest| < |s|
  {
    match ScanToken(s, maxChars)
    case Err(e) => Err(e)
    case Ok(rest) =>
      match BuildNumber(s[..|s| - |rest|])
      case Err(e) => Err(e)
      case Ok(f) => Ok(ScannedNumber(f, rest))
  }

  // ---------- the scanner and the grammar ----------

  /** Nothing that could extend a number token. */
  ghost predicate Stops(s: ByteString) {
    s == [] || !(IsDigit(s[0]) || s[0] == POINT || IsExponentMark(s[0]))
  }

  lemma {:induction false} DigitRunOfAscii(ds: seq<nat>, rest: ByteString)
    requires AllDigits(ds) && (rest == [] || !IsDigit(rest[0]))
    ensures DigitRun(Ascii(ds) + rest) == (ds, rest)
  {
    var s := Ascii(ds) + rest;
    if ds == [] {
      assert s == rest;
    } else {
      assert s[0] == ZERO + ds[0];
      assert s[1..] == Ascii(ds[1..]) + rest;
      DigitRunOfAscii(ds[1..], rest);
      assert ds == [ds[0]] + ds[1..];
    }
  }

  /** Digit runs are skipped unless they pass the bound. */
  lemma {:induction false} ScanDigitsOfAscii(ds: seq<nat>, rest: ByteString, total: nat, maxChars: int)
    requires AllDigits(ds) && (rest == [] || !IsDigit(rest[0]))
    requires total - |rest| <= maxChars
    ensures ScanDigits(Ascii(ds) + rest, total, maxChars) == Ok(rest)
  {
    var s := Ascii(ds) + rest;
    if ds == [] {
      assert s == rest;
    } else {
      assert s[0] == ZERO + ds[0];
      assert s[1..] == Ascii(ds[1..]) + rest;
      ScanDigitsOfAscii(ds[1..], rest, total, maxChars);
    }
  }

  lemma {:induction false} DigitRunSplits(s: ByteString)
    ensures var (ds, rest) := DigitRun(s);
      AllDigits(ds) && s == Ascii(ds) + rest && (s != [] && IsDigit(s[0]) ==> ds != [])
  {
    hide Ascii, DigitRun;
    DigitRunStep(s);
    if s != [] && IsDigit(s[0]) {
      DigitRunSplits(s[1..]);
      var (ds, rest) := DigitRun(s[1..]);
      AsciiCons(s[0] - ZERO, ds);
      assert s == [s[0]] + s[1..];
      assert [s[0]] + (Ascii(ds) + rest) == ([s[0]] + Ascii(ds)) + rest;
    } else {
      assert Ascii([]) + s == s;
    }
  }

  lemma DigitRunStep(s: ByteString)
    ensures DigitRun(s) ==
      if s == [] || !IsDigit(s[0]) then ([], s)
      else ([s[0] - ZERO] + DigitRun(s[1..]).0, DigitRun(s[1..]).1)
  {
  }

  lemma {:induction false} ScanDigitsStops(s: ByteString, total: nat, maxChars: int)
    requires ScanDigits(s, total, maxChars).Ok?
    ensures ScanDigits(s, total, maxChars) == Ok(DigitRun(s).1)
  {
    if s != [] && IsDigit(s[0]) {
      ScanDigitsStops(s[1..], total, maxChars);
    }
  }

  lemma ScanDigitsSound(s: ByteString, total: nat, maxChars: int)
    requires ScanDigits(s, total, maxChars).Ok?
    ensures var (ds, rest) := DigitRun(s);
      AllDigits(ds) && s == Ascii(ds) + rest && ScanDigits(s, total, maxChars) == Ok(rest)
      && (s != [] && IsDigit(s[0]) ==> ds != [])
  {
    hide Ascii, ScanDigits, DigitRun;
    DigitRunSplits(s);
    ScanDigitsStops(s, total, maxChars);
  }

  lemma AsciiCons(d: nat, ds: seq<nat>)
    requires d <= 9 && AllDigits(ds)
    ensures AllDigits([d] + ds) && Ascii([d] + ds) == [ZERO + d] + Ascii(ds)
  {
  }

  /** What follows the fraction of a token, and what follows its integer part. */
  ghost function AfterFraction(t: Token, rest: ByteString): ByteString
    requires WellFormed(t)
  {
    ExponentText(t.exponent) + rest
  }

  ghost function AfterWhole(t: Token, rest: ByteString): ByteString
    requires WellFormed(t)
  {
    FractionText(t.fraction) + AfterFraction(t, rest)
  }

  lemma TailHeads(t: Token, rest: ByteString)
    requires WellFormed(t) && Stops(rest)
    ensures var a := AfterFraction(t, rest); (a == [] || !(IsDigit(a[0]) || a[0] == POINT)) && |a| >= |rest|
    ensures var b := AfterWhole(t, rest); (b == [] || !IsDigit(b[0])) && |b| >= |rest|
  {
  }

  lemma WholeParts(t: Token, rest: ByteString, total: nat, maxChars: int)
    requires WellFormed(t) && Stops(rest) && total - |rest| <= maxChars
    ensures var s := Ascii(t.whole) + AfterWhole(t, rest);
      ScanInteger(s, total, maxChars) == Ok(AfterWhole(t, rest))
      && DigitRun(s) == (t.whole, AfterWhole(t, rest)) && s != [] && IsDigit(s[0])
  {
    hide ScanDigits, DigitRun, AfterWhole;
    var after := AfterWhole(t, rest);
    var s := Ascii(t.whole) + after;
    TailHeads(t, rest);
    DigitRunOfAscii(t.whole, after);
    assert s[0] == ZERO + t.whole[0];
    assert s[1..] == Ascii(t.whole[1..]) + after;
    if t.whole[0] == 0 {
      assert s[1..] == after;
    } else {
      ScanDigitsOfAscii(t.whole[1..], after, total, maxChars);
    }
  }

  lemma FractionParts(t: Token, rest: ByteString, total: nat, maxChars: int)
    requires WellFormed(t) && Stops(rest) && total - |rest| <= maxChars
    ensures var s := AfterWhole(t, rest);
      ScanFraction(s, total, maxChars) == Ok(AfterFraction(t, rest))
      && ReadFraction(s) == (t.fraction, AfterFraction(t, rest))
  {
    hide ScanDigits, DigitRun, Ascii, AfterFraction;
    var s, after := AfterWhole(t, rest), AfterFraction(t, rest);
    TailHeads(t, rest);
    if t.fraction.Fraction? {
      AppendAssociative([POINT], Ascii(t.fraction.digits), after);
      assert s[1..] == Ascii(t.fraction.digits) + after;
      assert s[1] == ZERO + t.fraction.digits[0];
      ScanDigitsOfAscii(t.fraction.digits, after, total, maxChars);
      DigitRunOfAscii(t.fraction.digits, after);
    } else {
      assert s == after;
    }
  }

  lemma ExponentParts(t: Token, rest: ByteString, total: nat, maxChars: int)
    requires WellFormed(t) && Stops(rest) && total - |rest| <= maxChars
    ensures var s := AfterFraction(t, rest);
      ScanExponent(s, total, maxChars) == Ok(rest) && ReadExponent(s) == (t.exponent, rest)
  {
    hide ScanDigits, DigitRun, Ascii;
    var s := AfterFraction(t, rest);
    if t.exponent.Exponent? {
      var ds, sign := t.exponent.digits, t.exponent.sign;
      var u := Ascii(ds) + rest;
      assert u[0] == ZERO + ds[0];
      assert [t.exponent.mark] + (SignText(sign) + Ascii(ds)) + rest == [t.exponent.mark] + (SignText(sign) + u);
      assert s[1..] == SignText(sign) + u;
      if sign.NoSign? {
        assert s[1..] == u;
      } else {
        assert s[1..][1..] == u;
      }
      ScanDigitsOfAscii(ds, rest, total, maxChars);
      DigitRunOfAscii(ds, rest);
    } else {
      assert s == rest;
    }
  }

  lemma TokenShape(t: Token, rest: ByteString)
    requires WellFormed(t)
    ensures TokenText(t) + rest == MinusText(t.negative) + (Ascii(t.whole) + AfterWhole(t, rest))
  {
    hide Ascii, FractionText, ExponentText;
    var f, e := FractionText(t.fraction), ExponentText(t.exponent);
    AppendAssociative(MinusText(t.negative), UnsignedText(t), rest);
    AppendAssociative(Ascii(t.whole), f + e, rest);
    AppendAssociative(f, e, rest);
  }

  /** A token within the bound is scanned whole and read back, whatever follows that cannot extend it. */
  lemma TokenComplete(t: Token, rest: ByteString, maxChars: int)
    requires WellFormed(t) && Stops(rest) && |TokenText(t)| <= maxChars
    ensures ScanToken(TokenText(t) + rest, maxChars) == Ok(rest)
    ensures ReadToken(TokenText(t) + rest) == (t, rest)
  {
    hide ScanDigits, DigitRun, ScanInteger, ScanFraction, ScanExponent, ReadFraction, ReadExponent, Ascii;
    hide TokenText, AfterWhole, AfterFraction, Stops;
    var s := TokenText(t) + rest;
    var u := Ascii(t.whole) + AfterWhole(t, rest);
    TokenShape(t, rest);
    WholeParts(t, rest, |s|, maxChars);
    FractionParts(t, rest, |s|, maxChars);
    ExponentParts(t, rest, |s|, maxChars);
    if t.negative {
      assert s[1..] == u;
    } else {
      assert s == u;
    }
  }

  lemma FractionSound(s: ByteString, total: nat, maxChars: int) returns (f: Fraction)
    requires ScanFraction(s, total, maxChars).Ok?
    ensures f.Fraction? ==> |f.digits| > 0 && AllDigits(f.digits)
    ensures s == FractionText(f) + ScanFraction(s, total, maxChars).value
  {
    hide ScanDigits, DigitRun, Ascii;
    if s == [] || s[0] != POINT {
      f := NoFraction;
    } else {
      ScanDigitsSound(s[1..], total, maxChars);
      f := Fraction(DigitRun(s[1..]).0);
      assert s == [s[0]] + s[1..];
    }
  }

  lemma SignSound(t: ByteString)
    ensures t == SignText(ReadSign(t).0) + ReadSign(t).1
    ensures ReadSign(t).1 == if t != [] && (t[0] == PLUS || t[0] == MINUS) then t[1..] else t
  {
    if t != [] {
      assert t == [t[0]] + t[1..];
    }
  }

  lemma ExponentSound(s: ByteString, total: nat, maxChars: int) returns (e: Exponent)
    requires ScanExponent(s, total, maxChars).Ok?
    ensures e.Exponent? ==> IsExponentMark(e.mark) && |e.digits| > 0 && AllDigits(e.digits)
    ensures s == ExponentText(e) + ScanExponent(s, total, maxChars).value
  {
    hide ScanDigits, DigitRun, Ascii, ReadSign, ScanExponent, Number;
    ExponentTurn(s, total, maxChars);
    if s == [] || !IsExponentMark(s[0]) {
      e := NoExponent;
      assert [] + s == s;
    } else {
      var (sign, u) := ReadSign(s[1..]);
      SignSound(s[1..]);
      ScanDigitsSound(u, total, maxChars);
      var ds := DigitRun(u).0;
      var rest := ScanDigits(u, total, maxChars).value;
      e := Exponent(s[0], sign, ds);
      assert s == [s[0]] + s[1..];
      Flatten(s[0], SignText(sign), Ascii(ds), rest);
    }
  }

  lemma ExponentTurn(s: ByteString, total: nat, maxChars: int)
    requires ScanExponent(s, total, maxChars).Ok?
    ensures if s == [] || !IsExponentMark(s[0]) then ScanExponent(s, total, maxChars) == Ok(s)
      else
        var u := ReadSign(s[1..]).1;
        u != [] && IsDigit(u[0]) && ScanExponent(s, total, maxChars) == ScanDigits(u, total, maxChars)
  {
    hide ScanDigits;
  }

  lemma Flatten(b: Byte, x: ByteString, y: ByteString, z: ByteString)
    ensures [b] + (x + (y + z)) == ([b] + (x + y)) + z
  {
  }

  lemma IntegerSound(s: ByteString, total: nat, maxChars: int) returns (whole: seq<nat>)
    requires ScanInteger(s, total, maxChars).Ok?
    ensures |whole| > 0 && AllDigits(whole) && (|whole| > 1 ==> whole[0] != 0)
    ensures s == Ascii(whole) + ScanInteger(s, total, maxChars).value
  {
    hide ScanDigits, DigitRun, Ascii;
    assert s == [s[0]] + s[1..];
    if s[0] == ZERO {
      whole := [0];
      assert Ascii(whole) == [ZERO];
    } else {
      ScanDigitsSound(s[1..], total, maxChars);
      var ds := DigitRun(s[1..]).0;
      var d := s[0] - ZERO;
      whole := [d] + ds;
      AsciiCons(d, ds);
    }
  }

  lemma Assemble(t: Token, w: ByteString)
    requires WellFormed(t)
    ensures TokenText(t) + w ==
      MinusText(t.negative) + (Ascii(t.whole) + (FractionText(t.fraction) + (ExponentText(t.exponent) + w)))
  {
  }

  /** Whatever is scanned is a token of the grammar within the bound. */
  lemma TokenSound(s: ByteString, maxChars: int) returns (t: Token)
    requires ScanToken(s, maxChars).Ok?
    ensures WellFormed(t) && s == TokenText(t) + ScanToken(s, maxChars).value
    ensures |TokenText(t)| <= maxChars
  {
    hide ScanDigits, ScanInteger, ScanFraction, ScanExponent, Ascii;
    var negative := s != [] && s[0] == MINUS;
    var t0 := if negative then s[1..] else s;
    assert s == MinusText(negative) + t0;
    var whole := IntegerSound(t0, |s|, maxChars);
    var u := ScanInteger(t0, |s|, maxChars).value;
    var f := FractionSound(u, |s|, maxChars);
    var v := ScanFraction(u, |s|, maxChars).value;
    var e := ExponentSound(v, |s|, maxChars);
    t := Token(negative, whole, f, e);
    var w := ScanExponent(v, |s|, maxChars).value;
    assert s == MinusText(negative) + (Ascii(whole) + (FractionText(f) + (ExponentText(e) + w)));
    Assemble(t, w);
  }

  // ---------- zero tokens ----------

  lemma MinusHead(t: Token)
    requires WellFormed(t)
    ensures TokenText(t) != [] && (TokenText(t)[0] == MINUS <==> t.negative)
  {
    if !t.negative {
      assert TokenText(t)[0] == ZERO + t.whole[0];
    }
  }

  ghost predicate AllZero(ds: seq<nat>) {
    forall i | 0 <= i < |ds| :: ds[i] == 0
  }

  lemma {:induction false} ZeroDigits(ds: seq<nat>)
    requires AllDigits(ds)
    ensures Number(ds) == 0 <==> AllZero(ds)
  {
    if ds != [] {
      ZeroDigits(ds[1..]);
      PowPositive(10, |ds| - 1);
      if ds[0] != 0 {
        NumberLead(ds);
      } else {
        assert forall i | 0 < i < |ds| :: ds[i] == ds[1..][i - 1];
      }
    }
  }

  lemma {:induction false} ZeroSignificandOfDigits(ds: seq<nat>, rest: ByteString)
    requires AllDigits(ds)
    ensures ZeroSignificand(Ascii(ds) + rest) <==>
      AllZero(ds) && ZeroSignificand(rest)
  {
    var s := Ascii(ds) + rest;
    if ds == [] {
      assert s == rest;
    } else {
      assert s[0] == ZERO + ds[0];
      assert s[1..] == Ascii(ds[1..]) + rest;
      ZeroSignificandOfDigits(ds[1..], rest);
      assert forall i | 0 < i < |ds| :: ds[i] == ds[1..][i - 1];
    }
  }

  /** The lexical zero test decides whether the token denotes zero. */
  lemma ZeroTokenExact(t: Token)
    requires WellFormed(t)
    ensures TokenRepresentsZero(TokenText(t)) <==> AbsoluteValue(t) == 0.0
  {
    hide Number, Ascii, ZeroSignificand, AbsoluteValue;
    var raw := TokenText(t);
    var frac := FractionDigits(t);
    var tail := FractionText(t.fraction) + ExponentText(t.exponent);
    MinusHead(t);
    if t.negative {
      assert raw[1..] == Ascii(t.whole) + tail;
    } else {
      assert raw == Ascii(t.whole) + tail;
    }
    ZeroSignificandOfDigits(t.whole, tail);
    ZeroFraction(t);
    ZeroConcat(t.whole, frac);
    ZeroDigits(t.whole + frac);
    ZeroValue(t);
  }

  lemma ZeroFraction(t: Token)
    requires WellFormed(t)
    ensures ZeroSignificand(FractionText(t.fraction) + ExponentText(t.exponent)) <==> AllZero(FractionDigits(t))
  {
    hide Ascii, Number;
    var tail := FractionText(t.fraction) + ExponentText(t.exponent);
    if t.fraction.Fraction? {
      assert tail[0] == POINT && tail[1..] == Ascii(t.fraction.digits) + ExponentText(t.exponent);
      ZeroSignificandOfDigits(t.fraction.digits, ExponentText(t.exponent));
    } else {
      assert tail == ExponentText(t.exponent);
    }
  }

  lemma ZeroConcat(a: seq<nat>, b: seq<nat>)
    ensures AllZero(a + b) <==> AllZero(a) && AllZero(b)
  {
    if AllZero(a + b) {
      assert forall i | 0 <= i < |a| :: a[i] == (a + b)[i];
      assert forall i | 0 <= i < |b| :: b[i] == (a + b)[|a| + i];
    }
  }

  /** A token the profile accepts: no overflow, no negative zero, no underflow to zero. */
  ghost predicate AcceptedNumber(t: Token) {
    && Round(AbsoluteValue(t)) != INFINITE
    && !(t.negative && AbsoluteValue(t) == 0.0)
    && (Round(AbsoluteValue(t)) == 0 ==> AbsoluteValue(t) == 0.0)
  }

  ghost function NumberOutcome(t: Token): Result<Float> {
    if Round(AbsoluteValue(t)) == INFINITE then Err(NumberOverflow)
    else if t.negative && AbsoluteValue(t) == 0.0 then Err(NumberNegZero)
    else if Round(AbsoluteValue(t)) == 0 && AbsoluteValue(t) != 0.0 then Err(NumberUnderflow)
    else Ok(Finite(t.negative, Round(AbsoluteValue(t))))
  }

  lemma BuildNumberOutcome(t: Token)
    requires WellFormed(t)
    ensures BuildNumber(TokenText(t)) == NumberOutcome(t)
  {
    hide AbsoluteValue, ReadToken, TokenRepresentsZero, Ascii, Round;
    TokenComplete(t, [], |TokenText(t)|);
    assert TokenText(t) + [] == TokenText(t);
    ZeroTokenExact(t);
    MinusHead(t);
  }

  /** A token in its place: the correctly rounded double, or the class of the violated number rule. */
  lemma NumberComplete(t: Token, rest: ByteString, maxChars: int)
    requires WellFormed(t) && Stops(rest) && |TokenText(t)| <= maxChars
    ensures ScanNumber(TokenText(t) + rest, maxChars) ==
      match NumberOutcome(t)
      case Ok(f) => Ok(ScannedNumber(f, rest))
      case Err(e) => Err(e)
  {
    hide ScanToken, BuildNumber, NumberOutcome, TokenText;
    TokenComplete(t, rest, maxChars);
    BuildNumberOutcome(t);
    var s := TokenText(t) + rest;
    assert s[..|s| - |rest|] == TokenText(t);
  }

  /** Whatever number is accepted is the correctly rounded value of an accepted token. */
  lemma NumberSound(s: ByteString, maxChars: int) returns (t: Token)
    requires ScanNumber(s, maxChars).Ok?
    ensures WellFormed(t) && AcceptedNumber(t) && |TokenText(t)| <= maxChars
    ensures var r := ScanNumber(s, maxChars).value;
      s == TokenText(t) + r.rest && r.num == Finite(t.negative, Round(AbsoluteValue(t)))
  {
    hide ScanToken, BuildNumber, TokenText, AbsoluteValue, Round;
    t := TokenSound(s, maxChars);
    var rest := ScanToken(s, maxChars).value;
    assert s[..|s| - |rest|] == TokenText(t);
    BuildNumberOutcome(t);
  }

  /** The text of a token determines it. */
  lemma TokenTextInjective(t: Token, u: Token)
    requires WellFormed(t) && WellFormed(u) && TokenText(t) == TokenText(u)
    ensures t == u
  {
    hide ReadToken, TokenText;
    TokenComplete(t, [], |TokenText(t)|);
    TokenComplete(u, [], |TokenText(u)|);
  }
}
