/**
 * Code units against characters: UTF-8 keeps the order of scalar values, UTF-16 does not, and the
 * order of member names is the latter. Surrogate pairs in literals are UTF-16.
 */
module CodeUnits {
  import opened Bytes
  import opened Powers
  import opened Unicode
  import opened Strings
  import opened Ordering

  // ---------- UTF-8 ----------

  /** The length of an encoding and the ranges of its bytes. */
  lemma Utf8Shape(r: int)
    requires Scalar(r)
    ensures var e := EncodeRune(r);
      && |e| == (if r < 0x80 then 1 else if r < 0x800 then 2 else if r < 0x10000 then 3 else 4)
      && (|e| == 2 ==> 0xC2 <= e[0] <= 0xDF) && (|e| == 3 ==> 0xE0 <= e[0] <= 0xEF)
      && (|e| == 4 ==> 0xF0 <= e[0] <= 0xF4)
      && forall i | 1 <= i < |e| :: 0x80 <= e[i] <= 0xBF
  {
  }

  /** Greater scalar values have greater encodings, whatever follows. */
  lemma Utf8Increasing(r: int, q: int, s: ByteString, t: ByteString)
    requires Scalar(r) && Scalar(q) && r < q
    ensures LexLess(EncodeRune(r) + s, EncodeRune(q) + t)
  {
    hide EncodeRune, LexLess;
    Utf8Shape(r);
    Utf8Shape(q);
    var d, e := EncodeRune(r), EncodeRune(q);
    var i := FirstDifference(r, q);
    assert (d + s)[..i] == d[..i] && (e + t)[..i] == e[..i];
    LexByFirstDifference(d + s, e + t, i);
  }

  /** Where two encodings part, the greater scalar value has the greater byte. */
  lemma FirstDifference(r: int, q: int) returns (i: nat)
    requires Scalar(r) && Scalar(q) && r < q
    ensures var d, e := EncodeRune(r), EncodeRune(q); i < |d| && i < |e| && d[..i] == e[..i] && d[i] < e[i]
  {
    hide EncodeRune;
    var d, e := EncodeRune(r), EncodeRune(q);
    Utf8Shape(r);
    Utf8Shape(q);
    i := 0;
    if |d| == |e| {
      ByDigits(r, q, 0x40);
      ByDigits(r / 0x40, q / 0x40, 0x40);
      ByDigits(r / 0x1000, q / 0x1000, 0x40);
      Utf8Digits(r);
      Utf8Digits(q);
      if d[0] == e[0] {
        i := if d[1] != e[1] then 1 else if d[2] != e[2] then 2 else 3;
      }
    }
  }

  /** An encoding of several bytes holds the digits of the scalar value to the base 64. */
  lemma Utf8Digits(r: int)
    requires Scalar(r)
    ensures r / 0x1000 == r / 0x40 / 0x40 && r / 0x40000 == r / 0x1000 / 0x40
    ensures var e := EncodeRune(r);
      && (|e| == 1 ==> e[0] == r)
      && (|e| == 2 ==> e[0] == 0xC0 + r / 0x40 && e[1] == 0x80 + r % 0x40)
      && (|e| == 3 ==> e[0] == 0xE0 + r / 0x1000 && e[1] == 0x80 + r / 0x40 % 0x40 && e[2] == 0x80 + r % 0x40)
      && (|e| == 4 ==> e[0] == 0xF0 + r / 0x40000 && e[1] == 0x80 + r / 0x1000 % 0x40)
      && (|e| == 4 ==> e[2] == 0x80 + r / 0x40 % 0x40 && e[3] == 0x80 + r % 0x40)
  {
  }

  lemma ByDigits(r: nat, q: nat, b: nat)
    requires r <= q && b > 0
    ensures r / b < q / b || (r / b == q / b && r % b <= q % b && (r < q ==> r % b < q % b))
  {
    QuotientMonotone(r, q, b);
  }

  lemma QuotientMonotone(r: nat, q: nat, b: nat)
    requires r <= q && b > 0
    ensures r / b <= q / b
  {
    var x, y := r / b, q / b;
    QuotientBounds(r, b);
    QuotientBounds(q, b);
    if y < x {
      MulMonotone(y + 1, x, b, b);
      assert false;
    }
  }

  lemma QuotientBounds(r: nat, b: nat)
    requires b > 0
    ensures (r / b) * b <= r < (r / b + 1) * b
  {
  }

  // ---------- UTF-16 ----------

  /** One unit below U+10000; from there on a high and a low surrogate that hold the rest in ten bits each. */
  lemma Utf16Units(r: int)
    requires Scalar(r)
    ensures var u := Utf16OfRune(r);
      && (forall i | 0 <= i < |u| :: 0 <= u[i] <= 0xFFFF)
      && (r < 0x10000 ==> u == [r] && !IsSurrogate(r))
      && (r >= 0x10000 ==> |u| == 2 && 0xD800 <= u[0] <= 0xDBFF && 0xDC00 <= u[1] <= 0xDFFF)
      && (r >= 0x10000 ==> r == 0x10000 + (u[0] - 0xD800) * 0x400 + (u[1] - 0xDC00))
  {
  }

  /** A pair of escapes is the UTF-16 of the character it denotes. */
  lemma PairIsUtf16(h: ByteString, l: ByteString)
    requires WellFormedItem(Pair(h, l))
    ensures Utf16OfRune(ItemRune(Pair(h, l))) == [Hex4Value(h), Hex4Value(l)]
  {
    hide Hex4Value, IsHex4, IsNoncharacter;
  }

  /** Four hexadecimal digits for a number. */
  function Hex4Text(v: nat): (h: ByteString)
    requires v < 0x10000
  {
    [HexDigit(v / 0x1000), HexDigit(v / 0x100 % 0x10), HexDigit(v / 0x10 % 0x10), HexDigit(v % 0x10)]
  }

  lemma Hex4TextReads(v: nat)
    requires v < 0x10000
    ensures IsHex4(Hex4Text(v)) && Hex4Value(Hex4Text(v)) == v
  {
    HexDigitReads(v / 0x1000);
    HexDigitReads(v / 0x100 % 0x10);
    HexDigitReads(v / 0x10 % 0x10);
    HexDigitReads(v % 0x10);
    assert v / 0x1000 == v / 0x100 / 0x10 && v / 0x100 == v / 0x10 / 0x10;
  }

  lemma HexDigitReads(v: nat)
    requires v < 0x10
    ensures IsHexDigit(HexDigit(v)) && HexValue(HexDigit(v)) == v
  {
  }

  /** Every character above U+FFFF that strings may hold is denoted by some pair of escapes. */
  lemma EveryPair(r: int) returns (h: ByteString, l: ByteString)
    requires Scalar(r) && !IsNoncharacter(r) && r >= 0x10000
    ensures WellFormedItem(Pair(h, l)) && ItemRune(Pair(h, l)) == r
  {
    hide Hex4Value, IsHex4, IsNoncharacter, Hex4Text;
    Utf16Units(r);
    var u := Utf16OfRune(r);
    h, l := Hex4Text(u[0]), Hex4Text(u[1]);
    Hex4TextReads(u[0]);
    Hex4TextReads(u[1]);
  }

  // ---------- the order of names by characters ----------

  /** UTF-16 order of characters: code point order, but what lies above U+FFFF comes before U+E000 to U+FFFF. */
  predicate RuneBefore(x: int, y: int) {
    if x >= 0x10000 && y < 0x10000 then y >= 0xE000
    else if x < 0x10000 && y >= 0x10000 then x < 0xD800
    else x < y
  }

  predicate RunesBefore(a: seq<int>, b: seq<int>) {
    b != [] && (a == [] || RuneBefore(a[0], b[0]) || (a[0] == b[0] && RunesBefore(a[1..], b[1..])))
  }

  lemma UnitsDecide(x: int, y: int, s: seq<int>, t: seq<int>)
    requires Scalar(x) && Scalar(y) && x != y
    ensures LexLess(Utf16OfRune(x) + s, Utf16OfRune(y) + t) <==> RuneBefore(x, y)
  {
    hide LexLess;
    var u, v := Utf16OfRune(x), Utf16OfRune(y);
    Utf16Units(x);
    Utf16Units(y);
    assert (u + s)[0] == u[0] && (v + t)[0] == v[0];
    if u[0] != v[0] {
      LexByFirstDifference(u + s, v + t, 0);
    } else {
      assert (u + s)[1] == u[1] && (v + t)[1] == v[1];
      assert (u + s)[..1] == (v + t)[..1];
      LexByFirstDifference(u + s, v + t, 1);
    }
  }

  lemma {:induction false} LexSamePrefix(u: seq<int>, s: seq<int>, t: seq<int>)
    ensures LexLess(u + s, u + t) <==> LexLess(s, t)
  {
    if u == [] {
      assert u + s == s && u + t == t;
    } else {
      LexSamePrefix(u[1..], s, t);
      assert (u + s)[1..] == u[1..] + s && (u + t)[1..] == u[1..] + t;
    }
  }

  lemma {:induction false} OrderByRunes(a: seq<int>, b: seq<int>)
    requires AllScalars(a) && AllScalars(b)
    ensures LexLess(Utf16(a), Utf16(b)) <==> RunesBefore(a, b)
  {
    hide Utf16OfRune, RuneBefore;
    if a != [] && b != [] {
      if a[0] == b[0] {
        LexSamePrefix(Utf16OfRune(a[0]), Utf16(a[1..]), Utf16(b[1..]));
        OrderByRunes(a[1..], b[1..]);
        NotBeforeItself(a[0]);
      } else {
        UnitsDecide(a[0], b[0], Utf16(a[1..]), Utf16(b[1..]));
      }
    }
  }

  lemma NotBeforeItself(x: int)
    ensures !RuneBefore(x, x)
  {
  }

  /** Names are ordered by their characters in UTF-16 order. */
  lemma KeyOrderByRunes(a: ByteString, b: ByteString)
    requires ValidUtf8(a) && ValidUtf8(b)
    ensures KeyLess(a, b) <==> RunesBefore(Runes(a), Runes(b))
  {
    hide Utf16, LexLess, ValidUtf8, Runes, RunesBefore;
    RunesOfValid(a);
    RunesOfValid(b);
    OrderByRunes(Runes(a), Runes(b));
  }

  /** Where the order differs from that of the bytes: above U+FFFF against U+E000 to U+FFFF. */
  lemma {:induction false} SupplementaryFirst(x: int, s: ByteString, y: int, t: ByteString)
    requires Scalar(x) && Scalar(y) && x >= 0x10000 && 0xE000 <= y < 0x10000 && ValidUtf8(s) && ValidUtf8(t)
    ensures KeyLess(EncodeRune(x) + s, EncodeRune(y) + t)
    ensures LexLess(EncodeRune(y) + t, EncodeRune(x) + s)
  {
    hide EncodeRune, DecodeRune, KeyLess, LexLess;
    Utf8Increasing(y, x, t, s);
    FirstRune(x, s);
    FirstRune(y, t);
    KeyOrderByRunes(EncodeRune(x) + s, EncodeRune(y) + t);
  }

  lemma FirstRune(x: int, s: ByteString)
    requires Scalar(x) && ValidUtf8(s)
    ensures ValidUtf8(EncodeRune(x) + s) && Runes(EncodeRune(x) + s) == [x] + Runes(s)
  {
    hide EncodeRune, DecodeRune;
    DecodeEncoded(x, s);
    assert (EncodeRune(x) + s)[|EncodeRune(x)|..] == s;
  }
}
