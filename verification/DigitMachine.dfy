/** Digit generation on a mutable state, in place, as refinement of the arithmetic in `Shortest`. */
module DigitMachine {
  import opened Bytes
  import opened Powers
  import opened Decimals
  import opened Doubles
  import opened Shortest
  import opened Conversion
  import opened Tokens
  import opened Layout
  import opened NumberText

  const BUFFER_SIZE: nat := 30

  function LshByInt(z: nat, n: int): nat {
    if n <= 0 then z else z * Pow(2, n)
  }

  class DigitState {
    var r: nat
    var s: nat
    var mPlus: nat
    var mMinus: nat
    var scratch1: nat
    var scratch2: nat
    var scratch3: nat
    var quot: nat
    var rem: nat

    /** A state from the pool: nothing is promised about what it holds. */
    constructor () {
    }

    ghost function View(): Scaled
      reads this
    {
      Scaled(r, s, mPlus, mMinus)
    }

    method InitScaledState(parts: FloatParts)
      modifies this
      ensures View() == InitScaled(parts)
    {
      if parts.fExp >= 0 {
        InitScaledPositiveExp(parts);
      } else {
        InitScaledNegativeExp(parts);
      }
    }

    method InitScaledPositiveExp(parts: FloatParts)
      requires parts.fExp >= 0
      modifies this
      ensures View() == InitScaled(parts)
    {
      assert Pow(2, 0) == 1;
      if !parts.lowerBoundary {
        r := LshByInt(parts.fMant, parts.fExp + 1);
        s := 2;
        mPlus := LshByInt(1, parts.fExp);
        mMinus := mPlus;
        return;
      }
      r := LshByInt(parts.fMant, parts.fExp + 2);
      s := 4;
      mPlus := LshByInt(1, parts.fExp + 1);
      mMinus := LshByInt(1, parts.fExp);
    }

    method InitScaledNegativeExp(parts: FloatParts)
      requires parts.fExp < 0
      modifies this
      ensures View() == InitScaled(parts)
    {
      if !parts.lowerBoundary {
        r := LshByInt(parts.fMant, 1);
        s := LshByInt(1, -parts.fExp + 1);
        mPlus := 1;
        mMinus := 1;
        return;
      }
      r := LshByInt(parts.fMant, 2);
      s := LshByInt(1, -parts.fExp + 2);
      mPlus := 2;
      mMinus := 1;
    }

    method ScaleStateByPower10(k: int)
      modifies this
      ensures View() == ScaleByPower10(old(View()), k)
    {
      if k > 0 {
        var p := Pow(10, k);
        s := s * p;
      } else if k < 0 {
        var p := Pow(10, -k);
        r := r * p;
        mPlus := mPlus * p;
        mMinus := mMinus * p;
      }
    }

    method ApplyHighFixup(isEven: bool, n: int) returns (m: int)
      modifies this
      ensures (View(), m) == HighFixup(old(View()), isEven, n)
    {
      scratch1 := r + mPlus;
      if CmpHigh(scratch1, s, isEven) {
        s := s * 10;
        return n + 1;
      }
      return n;
    }

    method ApplyLowFixup(isEven: bool, n: int) returns (m: int)
      requires Positive(View())
      modifies this
      ensures (View(), m) == LowFixup(old(View()), isEven, n)
    {
      m := n;
      while true
        invariant Positive(View())
        invariant LowFixup(View(), isEven, m) == LowFixup(old(View()), isEven, n)
        decreases s - r - mPlus
      {
        scratch1 := r * 10;
        if !CmpLow(scratch1, s, isEven) {
          return;
        }
        scratch2 := r + mPlus;
        scratch2 := scratch2 * 10;
        if !CmpLow(scratch2, s, isEven) {
          return;
        }
        r := r * 10;
        mPlus := mPlus * 10;
        mMinus := mMinus * 10;
        m := m - 1;
      }
    }

    method ScaleDigitState()
      modifies this
      ensures View() == Scaled(old(r) * 10, old(s), old(mPlus) * 10, old(mMinus) * 10)
    {
      r := r * 10;
      mPlus := mPlus * 10;
      mMinus := mMinus * 10;
    }

    method DivideAndRemainder() returns (d: nat)
      requires s > 0
      modifies this
      ensures d == old(r) / old(s)
      ensures View() == old(View()).(r := old(r) % old(s))
    {
      quot := r / s;
      rem := r % s;
      d := quot;
      r := rem;
    }

    method TerminationConditions(isEven: bool) returns (tc1: bool, tc2: bool)
      modifies this
      ensures View() == old(View())
      ensures tc1 == RoundsDown(View(), isEven) && tc2 == RoundsUp(View(), isEven)
    {
      tc1 := CmpRoundDown(r, mMinus, isEven);
      scratch1 := r + mPlus;
      tc2 := CmpHigh(scratch1, s, isEven);
    }

    method PickMidpointDigit(d: nat) returns (f: nat)
      modifies this
      ensures View() == old(View()) && f == MidpointDigit(d, View())
    {
      scratch3 := r * 2;
      if scratch3 < s {
        return d;
      }
      if scratch3 > s {
        return d + 1;
      }
      if d % 2 == 0 {
        return d;
      }
      return d + 1;
    }

    method PickFinalDigit(d: nat, tc1: bool, tc2: bool) returns (f: nat)
      modifies this
      ensures View() == old(View()) && f == FinalDigit(d, tc1, tc2, View())
    {
      if tc1 && !tc2 {
        return d;
      }
      if !tc1 && tc2 {
        return d + 1;
      }
      f := PickMidpointDigit(d);
    }

    /**
     * Fills a 30-byte buffer with the digits of the state. The buffer is never overrun,
     * and normalization leaves both the digits and the exponent as they are.
     */
    method ExtractDigits(isEven: bool, n: int) returns (digits: ByteString, m: int)
      requires Open(View(), isEven) && WideEnough(View())
      requires !CmpLow((r + mPlus) * 10, s, isEven)
      modifies this
      ensures AllDigits(Extract(old(View()), isEven))
      ensures digits == Ascii(Extract(old(View()), isEven)) && m == n
    {
      hide Extract, InGap, Number;
      ghost var all := Extract(View(), isEven);
      ExtractCorrect(View(), isEven);
      LeadingDigit(View(), isEven);
      AtMost17Digits(View(), isEven);
      var digitBuf := new Byte[BUFFER_SIZE];
      var dIdx := FillDigits(digitBuf, isEven);
      assert Values(digitBuf[..dIdx]) == all;
      dIdx, m := NormalizeDigitBuffer(digitBuf, dIdx, n);
      digits := digitBuf[..dIdx];
    }

    /** The digit loop. */
    method FillDigits(digitBuf: array<Byte>, isEven: bool) returns (dIdx: nat)
      requires Open(View(), isEven) && AllDigits(Extract(View(), isEven))
      requires |Extract(View(), isEven)| <= digitBuf.Length
      modifies this, digitBuf
      ensures dIdx == |Extract(old(View()), isEven)|
      ensures digitBuf[..dIdx] == Ascii(Extract(old(View()), isEven))
    {
      hide Extract, FinalDigit, InGap, Number, RoundsDown, RoundsUp, MidpointDigit;
      ghost var all := Extract(View(), isEven);
      dIdx := 0;
      while true
        invariant Open(View(), isEven)
        invariant 0 <= dIdx <= |all| <= digitBuf.Length && all[dIdx..] == Extract(View(), isEven)
        invariant digitBuf[..dIdx] == Ascii(all)[..dIdx]
        decreases |all| - dIdx
      {
        ghost var before := View();
        ExtractStep(before, isEven);
        ScaleDigitState();
        var d := DivideAndRemainder();
        assert (d, View()) == NextDigit(before);
        var tc1, tc2 := TerminationConditions(isEven);
        if !tc1 && !tc2 {
          TailOf(all, dIdx, d, Extract(View(), isEven));
          digitBuf[dIdx] := ZERO + d;
          dIdx := dIdx + 1;
          continue;
        }
        var f := PickFinalDigit(d, tc1, tc2);
        TailOf(all, dIdx, f, []);
        digitBuf[dIdx] := ZERO + f;
        dIdx := dIdx + 1;
        return;
      }
    }
  }

  lemma TailOf(all: seq<nat>, i: nat, d: nat, tail: seq<nat>)
    requires i <= |all| && all[i..] == [d] + tail
    ensures i < |all| && all[i] == d && all[i + 1..] == tail
  {
    assert all[i] == all[i..][0];
    assert all[i + 1..] == all[i..][1..];
  }

  /** One turn of the digit loop. */
  lemma ExtractStep(sc: Scaled, isEven: bool)
    requires Open(sc, isEven)
    ensures var (d, next) := NextDigit(sc);
      if !RoundsDown(next, isEven) && !RoundsUp(next, isEven) then
        d <= 9 && Open(next, isEven)
        && Extract(sc, isEven) == [d] + Extract(next, isEven) && |Extract(next, isEven)| > 0
      else
        Extract(sc, isEven) == [FinalDigit(d, RoundsDown(next, isEven), RoundsUp(next, isEven), next)]
  {
    var (d, next) := NextDigit(sc);
    DivMod(sc.r * 10, sc.s);
    DigitBelowTen(sc, d);
  }

  // ---------- normalization ----------

  /** The digit values of a buffer of digit bytes; a byte above '9' is a pending carry. */
  ghost function Values(s: ByteString): (ds: seq<nat>)
    requires forall i | 0 <= i < |s| :: s[i] >= ZERO
    ensures |ds| == |s| && forall i | 0 <= i < |s| :: ds[i] == s[i] - ZERO
  {
    seq(|s|, i requires 0 <= i < |s| => s[i] - ZERO)
  }

  /** Digits 0..9, except that the last one may be a pending 10. */
  ghost predicate MayCarry(s: ByteString) {
    forall i | 0 <= i < |s| :: ZERO <= s[i] <= if i == |s| - 1 then NINE + 1 else NINE
  }

  /** Moving a carry one place to the left keeps the number. */
  lemma CarryKeepsNumber(ds: seq<nat>, i: nat)
    requires 0 < i < |ds| && ds[i] == 10
    ensures Number(ds[i - 1 := ds[i - 1] + 1][i := 0]) == Number(ds)
  {
    var a, b := ds[..i - 1], ds[i + 1..];
    var x := ds[i - 1];
    var out := ds[i - 1 := x + 1][i := 0];
    assert ds == a + ([x, 10] + b);
    assert out == a + ([x + 1, 0] + b);
    NumberConcat(a, [x, 10] + b);
    NumberConcat(a, [x + 1, 0] + b);
    NumberConcat([x, 10], b);
    NumberConcat([x + 1, 0], b);
    TwoPlaces(x, 10);
    TwoPlaces(x + 1, 0);
  }

  lemma TwoPlaces(x: nat, y: nat)
    ensures Number([x, y]) == 10 * x + y
  {
    assert [x, y] == [x] + [y];
    NumberConcat([x], [y]);
    OneDigit(x);
    OneDigit(y);
  }

  /** A carry out of the leading place becomes a new leading 1. */
  lemma CarryOutKeepsNumber(ds: seq<nat>)
    requires |ds| > 0 && ds[0] == 10
    ensures Number([1, 0] + ds[1..]) == Number(ds)
  {
    assert ds == [10] + ds[1..];
    NumberConcat([10], ds[1..]);
    NumberConcat([1, 0], ds[1..]);
    OneDigit(10);
    TwoPlaces(1, 0);
  }

  lemma DroppedZero(ds: seq<nat>)
    requires |ds| > 0 && ds[|ds| - 1] == 0
    ensures Number(ds) == Number(ds[..|ds| - 1]) * 10
  {
    assert ds == ds[..|ds| - 1] + [0];
    NumberConcat(ds[..|ds| - 1], [0]);
    OneDigit(0);
  }

  ghost predicate InDigits(s: ByteString) {
    forall i | 0 <= i < |s| :: ZERO <= s[i] <= NINE
  }

  lemma CarryInBuffer(s: ByteString, i: nat)
    requires 0 < i < |s| && s[i] == NINE + 1 && forall j | 0 <= j < |s| && j != i :: ZERO <= s[j] <= NINE
    ensures Number(Values(s[i := ZERO][i - 1 := s[i - 1] + 1])) == Number(Values(s))
  {
    var ds := Values(s);
    CarryKeepsNumber(ds, i);
    assert Values(s[i := ZERO][i - 1 := s[i - 1] + 1]) == ds[i - 1 := ds[i - 1] + 1][i := 0];
  }

  lemma InDigitsByParts(s: ByteString)
    requires s != []
    ensures InDigits(s) <==> ZERO <= s[0] <= NINE && InDigits(s[1..])
  {
    assert forall i | 0 < i < |s| :: s[i] == s[1..][i - 1];
  }

  /** Carries move to the left until only the first place can hold one. */
  method PropagateCarries(digitBuf: array<Byte>, dIdx: nat)
    requires 0 < dIdx <= digitBuf.Length && MayCarry(digitBuf[..dIdx])
    modifies digitBuf
    ensures ZERO <= digitBuf[0] <= NINE + 1 && InDigits(digitBuf[1..dIdx])
    ensures Number(Values(digitBuf[..dIdx])) == old(Number(Values(digitBuf[..dIdx])))
    ensures old(InDigits(digitBuf[..dIdx])) ==> digitBuf[..] == old(digitBuf[..])
  {
    var i := dIdx - 1;
    while i > 0
      invariant 0 <= i < dIdx
      invariant forall j | 0 <= j < dIdx :: ZERO <= digitBuf[j] <= if j == i then NINE + 1 else NINE
      invariant Number(Values(digitBuf[..dIdx])) == old(Number(Values(digitBuf[..dIdx])))
      invariant old(InDigits(digitBuf[..dIdx])) ==> digitBuf[..] == old(digitBuf[..])
    {
      if digitBuf[i] > NINE {
        hide Number;
        ghost var before := digitBuf[..dIdx];
        assert before[i] > NINE;
        CarryInBuffer(before, i);
        digitBuf[i] := ZERO;
        digitBuf[i - 1] := digitBuf[i - 1] + 1;
        assert digitBuf[..dIdx] == before[i := ZERO][i - 1 := before[i - 1] + 1];
      }
      i := i - 1;
    }
  }

  /** Carry propagation, carry out of the first digit, and trailing-zero stripping keep the value. */
  method NormalizeDigitBuffer(digitBuf: array<Byte>, dIdx: nat, n: int) returns (k: nat, m: int)
    requires 0 < dIdx < digitBuf.Length && MayCarry(digitBuf[..dIdx])
    modifies digitBuf
    ensures 0 < k <= digitBuf.Length && InDigits(digitBuf[..k])
    ensures k == 1 || digitBuf[k - 1] != ZERO
    // 0.digits * 10^n is unchanged: the place of the last digit moves by the zeros dropped
    ensures n <= m <= n + 1 && k <= dIdx + (m - n)
    ensures Number(Values(digitBuf[..k])) * Pow(10, dIdx + (m - n) - k)
         == old(Number(Values(digitBuf[..dIdx])))
    // a buffer of digits without a trailing zero is left alone
    ensures old(InDigits(digitBuf[..dIdx]) && digitBuf[dIdx - 1] != ZERO) ==>
      k == dIdx && m == n && digitBuf[..] == old(digitBuf[..])
  {
    hide Number, Pow, Values, InDigits, MayCarry;
    PropagateCarries(digitBuf, dIdx);
    k, m := dIdx, n;
    assert [digitBuf[0]] + digitBuf[1..k] == digitBuf[..k];
    InDigitsByParts(digitBuf[..k]);
    if k > 0 && digitBuf[0] > NINE {
      CarryOut(digitBuf, k);
      k := k + 1;
      m := m + 1;
    } else {
      assert digitBuf[..k][1..] == digitBuf[1..k];
    }
    k := StripTrailingZeros(digitBuf, k);
  }

  /** Makes room for a leading 1. */
  method CarryOut(digitBuf: array<Byte>, k: nat)
    requires 0 < k < digitBuf.Length && digitBuf[0] == NINE + 1 && InDigits(digitBuf[1..k])
    modifies digitBuf
    ensures InDigits(digitBuf[..k + 1])
    ensures Number(Values(digitBuf[..k + 1])) == old(Number(Values([digitBuf[0]] + digitBuf[1..k])))
  {
    hide Number, Values, InDigits;
    ghost var tail := digitBuf[1..k];
    CarryOutOfBuffer(digitBuf[0], tail);
    forall j | 1 <= j <= k {
      digitBuf[j] := digitBuf[j - 1];
    }
    digitBuf[0] := ZERO + 1;
    digitBuf[1] := ZERO;
    assert digitBuf[..k + 1] == [ZERO + 1, ZERO] + tail;
  }

  lemma CarryOutOfBuffer(b: Byte, tail: ByteString)
    requires b == NINE + 1 && InDigits(tail)
    ensures InDigits([ZERO + 1, ZERO] + tail) && InDigits(tail)
    ensures Number(Values([ZERO + 1, ZERO] + tail)) == Number(Values([b] + tail))
  {
    var before := Values([b] + tail);
    CarryOutKeepsNumber(before);
    assert Values([ZERO + 1, ZERO] + tail) == [1, 0] + before[1..];
  }

  method StripTrailingZeros(digitBuf: array<Byte>, dIdx: nat) returns (k: nat)
    requires 0 < dIdx <= digitBuf.Length && InDigits(digitBuf[..dIdx])
    ensures 0 < k <= dIdx && InDigits(digitBuf[..k])
    ensures k == 1 || digitBuf[k - 1] != ZERO
    ensures Number(Values(digitBuf[..k])) * Pow(10, dIdx - k) == Number(Values(digitBuf[..dIdx]))
    ensures digitBuf[dIdx - 1] != ZERO ==> k == dIdx
  {
    k := dIdx;
    assert Pow(10, 0) == 1;
    ghost var all := digitBuf[..dIdx];
    assert all[..dIdx] == all;
    while k > 1 && digitBuf[k - 1] == ZERO
      invariant 1 <= k <= dIdx && InDigits(all[..k])
      invariant digitBuf[dIdx - 1] != ZERO ==> k == dIdx
      invariant Number(Values(all[..k])) * Pow(10, dIdx - k) == Number(Values(all))
    {
      hide Number;
      DroppedZero(Values(all[..k]));
      assert Values(all[..k - 1]) == Values(all[..k])[..k - 1];
      k := k - 1;
      Shifted(Number(Values(all[..k])), Pow(10, dIdx - k - 1));
    }
    assert all[..k] == digitBuf[..k];
  }

  lemma Shifted(x: nat, p: nat)
    ensures (x * 10) * p == x * (10 * p)
  {
  }

  // ---------- formatting ----------

  /** The printed decimal of `m`, from any admissible estimate `k` and whatever the pooled state holds. */
  method GenerateDigits(m: NonZero, k: int, state: DigitState) returns (digits: ByteString, n: int)
    requires Admissible(m, k)
    modifies state
    ensures n == ShortestDecimal(m).1
    ensures AllDigits(ShortestDecimal(m).0) && digits == Ascii(ShortestDecimal(m).0)
  {
    var parts := DecodeFloatParts(m);
    state.InitScaledState(parts);
    InitShape(m);
    state.ScaleStateByPower10(k);
    ScaleShape(InitScaled(parts), k);
    n := state.ApplyHighFixup(parts.isEven, k);
    n := state.ApplyLowFixup(parts.isEven, n);
    ParityOfSignificand(m);
    PrepareReady(m, k);
    assert (state.View(), n) == Prepare(m, k);
    ExtractIsShortest(state.View(), m, n);
    ghost var ds := Extract(state.View(), parts.isEven);
    ShortestUnique(m, ds, n, ShortestDecimal(m).0, ShortestDecimal(m).1);
    digits, n := state.ExtractDigits(parts.isEven, n);
  }

  /** Formats a double; `k` is the estimate of the decimal exponent of its magnitude. */
  method FormatDouble(f: Float, k: int) returns (text: Result<ByteString>)
    requires f.Finite? && f.magnitude > 0 ==> Admissible(f.magnitude, k)
    ensures text == FormatSpec(f)
    ensures !f.Finite? ==> text == Err(InvalidGrammar)
    ensures f.Finite? && f.magnitude == 0 ==> text == Ok([ZERO])
  {
    if f.Finite? {
      ZeroText(f.negative);
    }
    if f.NaN? {
      return Err(InvalidGrammar);
    }
    if f.Finite? && f.magnitude == 0 {
      return Ok([ZERO]);
    }
    if f.Inf? {
      return Err(InvalidGrammar);
    }
    var state := new DigitState();
    var digits, n := GenerateDigits(f.magnitude, k, state);
    ExponentRange(f.magnitude, n);
    var out := FormatEcma(f.negative, digits, n, ShortestDecimal(f.magnitude).0);
    return Ok(out);
  }
}
