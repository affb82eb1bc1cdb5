/**
 * UTF-8 (sections 3 and 4 of RFC 3629) and UTF-16 (section 2.1 of RFC 2781),
 * with the decoding conventions of the utf8 and utf16 packages of Go.
 */
module Unicode {
  import opened Bytes

  const RUNE_ERROR: int := 0xFFFD

  /** A Unicode scalar value: a code point that is not a surrogate. */
  predicate Scalar(r: int) {
    0 <= r < 0xD800 || 0xE000 <= r <= 0x10FFFF
  }

  predicate IsNoncharacter(r: int) {
    0xFDD0 <= r <= 0xFDEF || (0 <= r <= 0x10FFFF && r % 0x10000 >= 0xFFFE)
  }

  predicate IsSurrogate(r: int) {
    0xD800 <= r <= 0xDFFF
  }

  // ---------- UTF-8 ----------

  function EncodeRune(r: int): (s: ByteString)
    requires Scalar(r)
    ensures 1 <= |s| <= 4
    ensures r < 0x80 ==> s == [r]
    ensures r >= 0x80 ==> forall b <- s :: b >= 0x80
  {
    if r < 0x80 then [r]
    else if r < 0x800 then [0xC0 + r / 0x40, 0x80 + r % 0x40]
    else if r < 0x10000 then [0xE0 + r / 0x1000, 0x80 + r / 0x40 % 0x40, 0x80 + r % 0x40]
    else [0xF0 + r / 0x40000, 0x80 + r / 0x1000 % 0x40, 0x80 + r / 0x40 % 0x40, 0x80 + r % 0x40]
  }

  predicate Continuation(b: int) {
    0x80 <= b <= 0xBF
  }

  /** The second byte of a three-byte form: no overlong encodings and no surrogates. */
  predicate ThreeByteSecond(b0: int, b1: int) {
    Continuation(b1) && (b0 == 0xE0 ==> 0xA0 <= b1) && (b0 == 0xED ==> b1 <= 0x9F)
  }

  /** The second byte of a four-byte form: no overlong encodings and nothing above U+10FFFF. */
  predicate FourByteSecond(b0: int, b1: int) {
    Continuation(b1) && (b0 == 0xF0 ==> 0x90 <= b1) && (b0 == 0xF4 ==> b1 <= 0x8F)
  }

  /** The first rune and its width; (RUNE_ERROR, 1) on malformed and (RUNE_ERROR, 0) on empty input. */
  function DecodeRune(s: ByteString): (d: (int, nat))
    ensures d.1 <= |s| && (s != [] ==> d.1 >= 1)
  {
    if s == [] then (RUNE_ERROR, 0)
    else
      var b0: int := s[0];
      if b0 < 0x80 then (b0, 1)
      else if 0xC2 <= b0 <= 0xDF && |s| >= 2 && Continuation(s[1]) then
        var b1: int := s[1];
        ((b0 - 0xC0) * 0x40 + (b1 - 0x80), 2)
      else if 0xE0 <= b0 <= 0xEF && |s| >= 3 && ThreeByteSecond(b0, s[1]) && Continuation(s[2]) then
        var b1: int, b2: int := s[1], s[2];
        ((b0 - 0xE0) * 0x1000 + (b1 - 0x80) * 0x40 + (b2 - 0x80), 3)
      else if 0xF0 <= b0 <= 0xF4 && |s| >= 4 && FourByteSecond(b0, s[1])
              && Continuation(s[2]) && Continuation(s[3]) then
        var b1: int, b2: int, b3: int := s[1], s[2], s[3];
        ((b0 - 0xF0) * 0x40000 + (b1 - 0x80) * 0x1000 + (b2 - 0x80) * 0x40 + (b3 - 0x80), 4)
      else (RUNE_ERROR, 1)
  }

  /** Decoding succeeded. */
  predicate GoodRune(d: (int, nat)) {
    d.1 > 0 && !(d.0 == RUNE_ERROR && d.1 <= 1)
  }

  predicate ValidUtf8(s: ByteString) {
    s == [] || (GoodRune(DecodeRune(s)) && ValidUtf8(s[DecodeRune(s).1..]))
  }

  /** The runes of a string; malformed bytes become RUNE_ERROR. */
  function Runes(s: ByteString): seq<int>
    decreases |s|
  {
    if s == [] then [] else [DecodeRune(s).0] + Runes(s[DecodeRune(s).1..])
  }

  ghost predicate AllScalars(rs: seq<int>) {
    forall i | 0 <= i < |rs| :: Scalar(rs[i])
  }

  function EncodeRunes(rs: seq<int>): ByteString
    requires AllScalars(rs)
  {
    if rs == [] then [] else EncodeRune(rs[0]) + EncodeRunes(rs[1..])
  }

  lemma DecodeEncoded(r: int, rest: ByteString)
    requires Scalar(r)
    ensures DecodeRune(EncodeRune(r) + rest) == (r, |EncodeRune(r)|)
    ensures GoodRune(DecodeRune(EncodeRune(r) + rest))
  {
    var e := EncodeRune(r);
    var s := e + rest;
    assert s[..|e|] == e;
    if |e| == 1 {
    } else if |e| == 2 {
      DecodeTwo(r, s);
    } else if |e| == 3 {
      DecodeThree(r, s);
    } else {
      DecodeFour(r, s);
    }
  }

  lemma DecodeTwo(r: int, s: ByteString)
    requires 0x80 <= r < 0x800 && |s| >= 2 && s[..2] == EncodeRune(r)
    ensures DecodeRune(s) == (r, 2)
  {
    assert s[0] == s[..2][0] && s[1] == s[..2][1];
  }

  lemma DecodeThree(r: int, s: ByteString)
    requires 0x800 <= r < 0x10000 && Scalar(r) && |s| >= 3 && s[..3] == EncodeRune(r)
    ensures DecodeRune(s) == (r, 3)
  {
    assert s[0] == s[..3][0] && s[1] == s[..3][1] && s[2] == s[..3][2];
    assert r / 0x1000 == r / 0x40 / 0x40;
  }

  lemma DecodeFour(r: int, s: ByteString)
    requires 0x10000 <= r <= 0x10FFFF && |s| >= 4 && s[..4] == EncodeRune(r)
    ensures DecodeRune(s) == (r, 4)
  {
    assert s[0] == s[..4][0] && s[1] == s[..4][1] && s[2] == s[..4][2] && s[3] == s[..4][3];
    assert r / 0x1000 == r / 0x40 / 0x40;
    assert r / 0x40000 == r / 0x1000 / 0x40;
  }

  lemma EncodeDecoded(s: ByteString)
    requires GoodRune(DecodeRune(s))
    ensures var (r, n) := DecodeRune(s); Scalar(r) && s[..n] == EncodeRune(r)
  {
    hide ValidUtf8, Runes, EncodeRune;
    var (r, n) := DecodeRune(s);
    if n == 1 {
      assert s[..1] == [r] == EncodeRune(r);
    } else if n == 2 {
      EncodeTwo(s[0] - 0xC0, s[1] - 0x80);
      assert s[..2] == [s[0], s[1]];
    } else if n == 3 {
      EncodeThree(s[0] - 0xE0, s[1] - 0x80, s[2] - 0x80);
      assert s[..3] == [s[0], s[1], s[2]];
    } else {
      EncodeFour(s[0] - 0xF0, s[1] - 0x80, s[2] - 0x80, s[3] - 0x80);
      assert s[..4] == [s[0], s[1], s[2], s[3]];
    }
  }

  lemma EncodeTwo(a: nat, b: nat)
    requires 2 <= a < 0x20 && b < 0x40
    ensures var r := a * 0x40 + b; Scalar(r) && EncodeRune(r) == [0xC0 + a, 0x80 + b]
  {
    TwoByteParts(a, b);
  }

  lemma EncodeThree(a: nat, b: nat, c: nat)
    requires a < 0x10 && b < 0x40 && c < 0x40 && (a == 0 ==> b >= 0x20) && (a == 0xD ==> b < 0x20)
    ensures var r := a * 0x1000 + b * 0x40 + c;
      Scalar(r) && EncodeRune(r) == [0xE0 + a, 0x80 + b, 0x80 + c]
  {
    ThreeByteParts(a, b, c);
  }

  lemma EncodeFour(a: nat, b: nat, c: nat, d: nat)
    requires a < 5 && b < 0x40 && c < 0x40 && d < 0x40 && (a == 0 ==> b >= 0x10) && (a == 4 ==> b < 0x10)
    ensures var r := a * 0x40000 + b * 0x1000 + c * 0x40 + d;
      Scalar(r) && EncodeRune(r) == [0xF0 + a, 0x80 + b, 0x80 + c, 0x80 + d]
  {
    FourByteParts(a, b, c, d);
  }

  lemma TwoByteParts(a: nat, b: nat)
    requires b < 0x40
    ensures var r := a * 0x40 + b; r / 0x40 == a && r % 0x40 == b
  {
  }

  lemma ThreeByteParts(a: nat, b: nat, c: nat)
    requires b < 0x40 && c < 0x40
    ensures var r := a * 0x1000 + b * 0x40 + c;
      r / 0x1000 == a && r / 0x40 % 0x40 == b && r % 0x40 == c
  {
    var r := a * 0x1000 + b * 0x40 + c;
    assert r / 0x40 == a * 0x40 + b;
  }

  lemma FourByteParts(a: nat, b: nat, c: nat, d: nat)
    requires b < 0x40 && c < 0x40 && d < 0x40
    ensures var r := a * 0x40000 + b * 0x1000 + c * 0x40 + d;
      r / 0x40000 == a && r / 0x1000 % 0x40 == b && r / 0x40 % 0x40 == c && r % 0x40 == d
  {
    var r := a * 0x40000 + b * 0x1000 + c * 0x40 + d;
    assert r / 0x40 == a * 0x1000 + b * 0x40 + c;
    assert r / 0x1000 == a * 0x40 + b;
  }

  /** A valid string is the encoding of its runes, and no rune is a surrogate. */
  lemma {:induction false} RunesOfValid(s: ByteString)
    requires ValidUtf8(s)
    ensures AllScalars(Runes(s)) && EncodeRunes(Runes(s)) == s
    decreases |s|
  {
    hide DecodeRune, EncodeRune;
    if s != [] {
      var (r, n) := DecodeRune(s);
      EncodeDecoded(s);
      RunesOfValid(s[n..]);
      var tail := Runes(s[n..]);
      assert Runes(s) == [r] + tail && ([r] + tail)[1..] == tail;
      assert EncodeRunes([r] + tail) == EncodeRune(r) + EncodeRunes(tail);
      assert s == s[..n] + s[n..];
    }
  }

  /** Every encoding of scalar values is valid and decodes to them. */
  lemma {:induction false} EncodedIsValid(rs: seq<int>, rest: ByteString)
    requires AllScalars(rs)
    ensures ValidUtf8(EncodeRunes(rs) + rest) <==> ValidUtf8(rest)
    ensures Runes(EncodeRunes(rs) + rest) == rs + Runes(rest)
  {
    hide DecodeRune, EncodeRune;
    if rs == [] {
      assert EncodeRunes(rs) + rest == rest;
    } else {
      var e, tail := EncodeRune(rs[0]), EncodeRunes(rs[1..]) + rest;
      EncodedIsValid(rs[1..], rest);
      DecodeEncoded(rs[0], tail);
      assert EncodeRunes(rs) + rest == e + tail;
      assert (e + tail)[|e|..] == tail;
    }
  }

  /** UTF-8 validity: exactly the encodings of sequences of scalar values. */
  lemma ValidIffEncoding(s: ByteString)
    ensures ValidUtf8(s) <==> exists rs | AllScalars(rs) :: EncodeRunes(rs) == s
  {
    if ValidUtf8(s) {
      RunesOfValid(s);
    } else {
      forall rs | AllScalars(rs) ensures EncodeRunes(rs) != s {
        EncodedIsValid(rs, []);
        assert EncodeRunes(rs) + [] == EncodeRunes(rs);
      }
    }
  }

  /** A valid prefix can be dropped and restored. */
  lemma ValidConcat(a: ByteString, b: ByteString)
    requires ValidUtf8(a)
    ensures ValidUtf8(a + b) <==> ValidUtf8(b)
  {
    RunesOfValid(a);
    EncodedIsValid(Runes(a), b);
  }

  ghost predicate IsAscii(s: ByteString) {
    forall i | 0 <= i < |s| :: s[i] < 0x80
  }

  lemma {:induction false} AsciiIsValid(s: ByteString)
    requires IsAscii(s)
    ensures ValidUtf8(s) && Runes(s) == s
  {
    if s != [] {
      AsciiIsValid(s[1..]);
    }
  }

  // ---------- UTF-16 ----------

  function Utf16OfRune(r: int): (u: seq<int>)
    ensures |u| > 0
  {
    if r < 0x10000 then [r]
    else [0xD800 + (r - 0x10000) / 0x400, 0xDC00 + (r - 0x10000) % 0x400]
  }

  function Utf16(rs: seq<int>): seq<int> {
    if rs == [] then [] else Utf16OfRune(rs[0]) + Utf16(rs[1..])
  }

  /** The UTF-16 code units of a key. */
  function Key16(key: ByteString): seq<int> {
    Utf16(Runes(key))
  }

  lemma {:induction false} Utf16Injective(a: seq<int>, b: seq<int>)
    requires AllScalars(a) && AllScalars(b) && Utf16(a) == Utf16(b)
    ensures a == b
  {
    if a != [] && b != [] {
      var u, v := Utf16OfRune(a[0]), Utf16OfRune(b[0]);
      assert Utf16(a)[0] == u[0] && Utf16(b)[0] == v[0];
      assert |u| == 2 ==> Utf16(a)[1] == u[1];
      assert |v| == 2 ==> Utf16(b)[1] == v[1];
      assert |u| == |v| && a[0] == b[0];
      assert Utf16(a)[|u|..] == Utf16(a[1..]) && Utf16(b)[|u|..] == Utf16(b[1..]);
      Utf16Injective(a[1..], b[1..]);
      assert a == [a[0]] + a[1..] && b == [b[0]] + b[1..];
    }
  }

  /** Valid keys are determined by their code units. */
  lemma Key16Injective(a: ByteString, b: ByteString)
    requires ValidUtf8(a) && ValidUtf8(b) && Key16(a) == Key16(b)
    ensures a == b
  {
    RunesOfValid(a);
    RunesOfValid(b);
    Utf16Injective(Runes(a), Runes(b));
  }

  /** For ASCII keys the code units are the bytes. */
  lemma {:induction false} AsciiKey16(key: ByteString)
    requires IsAscii(key)
    ensures Key16(key) == key
  {
    AsciiIsValid(key);
    AsciiUtf16(key);
  }

  lemma {:induction false} AsciiUtf16(rs: seq<int>)
    requires forall i | 0 <= i < |rs| :: rs[i] < 0x80
    ensures Utf16(rs) == rs
  {
    if rs != [] {
      AsciiUtf16(rs[1..]);
    }
  }
}
