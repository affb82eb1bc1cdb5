/** JSON strings: grammar (section 7 of RFC 8259), strict scanning, and canonical escaping. */
module Strings {
  import opened Bytes
  import opened Unicode

  // ---------- grammar ----------

  /** One character of a string literal; a surrogate pair is one character written as two escapes. */
  datatype Item =
    | Raw(rune: int)
    | Short(letter: Byte)
    | Hex(digits: ByteString)
    | Pair(high: ByteString, low: ByteString)

  predicate IsHexDigit(b: int) {
    0x30 <= b <= 0x39 || 0x61 <= b <= 0x66 || 0x41 <= b <= 0x46
  }

  function HexValue(b: int): nat
    requires IsHexDigit(b)
    ensures HexValue(b) < 16
  {
    if b <= 0x39 then b - 0x30 else if b >= 0x61 then b - 0x61 + 10 else b - 0x41 + 10
  }

  predicate IsHex4(h: ByteString) {
    |h| == 4 && IsHexDigit(h[0]) && IsHexDigit(h[1]) && IsHexDigit(h[2]) && IsHexDigit(h[3])
  }

  function Hex4Value(h: ByteString): nat
    requires IsHex4(h)
    ensures Hex4Value(h) < 0x10000
  {
    ((HexValue(h[0]) * 16 + HexValue(h[1])) * 16 + HexValue(h[2])) * 16 + HexValue(h[3])
  }

  predicate IsShortEscape(b: int) {
    b == QUOTE || b == BACKSLASH || b == SLASH || b == 0x62 || b == 0x66 || b == 0x6E || b == 0x72 || b == 0x74
  }

  function EscapedRune(b: int): int
    requires IsShortEscape(b)
  {
    if b == 0x62 then 0x08
    else if b == 0x66 then 0x0C
    else if b == 0x6E then 0x0A
    else if b == 0x72 then 0x0D
    else if b == 0x74 then 0x09
    else b
  }

  function DecodePair(high: int, low: int): int {
    0x10000 + (high - 0xD800) * 0x400 + (low - 0xDC00)
  }

  /** Section 7 of RFC 8259 for one character; an escape may denote any code unit. */
  ghost predicate ShapedItem(i: Item) {
    match i
    case Raw(r) => Scalar(r) && r >= 0x20 && r != QUOTE && r != BACKSLASH
    case Short(b) => IsShortEscape(b)
    case Hex(h) => IsHex4(h)
    case Pair(h, l) => IsHex4(h) && IsHex4(l) && IsHighSurrogate(Hex4Value(h)) && IsLowSurrogate(Hex4Value(l))
  }

  predicate IsHighSurrogate(r: int) {
    0xD800 <= r <= 0xDBFF
  }

  predicate IsLowSurrogate(r: int) {
    0xDC00 <= r <= 0xDFFF
  }

  /** The same without lone surrogates and noncharacters. */
  ghost predicate WellFormedItem(i: Item): (ok: bool)
    ensures ok ==> ShapedItem(i)
  {
    match i
    case Raw(r) => Scalar(r) && r >= 0x20 && r != QUOTE && r != BACKSLASH && !IsNoncharacter(r)
    case Short(b) => IsShortEscape(b)
    case Hex(h) => IsHex4(h) && !IsSurrogate(Hex4Value(h)) && !IsNoncharacter(Hex4Value(h))
    case Pair(h, l) =>
      && IsHex4(h) && IsHex4(l)
      && 0xD800 <= Hex4Value(h) < 0xDC00 <= Hex4Value(l) <= 0xDFFF
      && !IsNoncharacter(DecodePair(Hex4Value(h), Hex4Value(l)))
  }

  ghost function ItemRune(i: Item): (r: int)
    requires WellFormedItem(i)
    ensures Scalar(r) && !IsNoncharacter(r)
  {
    match i
    case Raw(r) => r
    case Short(b) => EscapedRune(b)
    case Hex(h) => Hex4Value(h)
    case Pair(h, l) => DecodePair(Hex4Value(h), Hex4Value(l))
  }

  ghost function ItemText(i: Item): (s: ByteString)
    requires ShapedItem(i)
    ensures |s| > 0
  {
    match i
    case Raw(r) => EncodeRune(r)
    case Short(b) => [BACKSLASH, b]
    case Hex(h) => [BACKSLASH, 0x75] + h
    case Pair(h, l) => [BACKSLASH, 0x75] + (h + ([BACKSLASH, 0x75] + l))
  }

  /** Two escapes that make a pair are one item. */
  ghost predicate ShapedItems(items: seq<Item>) {
    && (forall i | 0 <= i < |items| :: ShapedItem(items[i]))
    && (forall i | 0 <= i < |items| - 1 :: !SplitPair(items[i], items[i + 1]))
  }

  ghost predicate SplitPair(a: Item, b: Item)
    requires ShapedItem(a) && ShapedItem(b)
  {
    a.Hex? && b.Hex? && IsHighSurrogate(Hex4Value(a.digits)) && IsLowSurrogate(Hex4Value(b.digits))
  }

  ghost predicate WellFormedItems(items: seq<Item>): (ok: bool)
    ensures ok ==> ShapedItems(items)
  {
    forall i | 0 <= i < |items| :: WellFormedItem(items[i])
  }

  ghost function ItemsText(items: seq<Item>): ByteString
    requires ShapedItems(items)
  {
    if items == [] then [] else ItemText(items[0]) + ItemsText(items[1..])
  }

  /** The string a literal denotes, in UTF-8. */
  ghost function Denoted(items: seq<Item>): ByteString
    requires WellFormedItems(items)
  {
    if items == [] then [] else EncodeRune(ItemRune(items[0])) + Denoted(items[1..])
  }

  // ---------- scanning ----------

  /** The scalar policy for a rune that has been read. */
  function CheckRune(r: int): (c: Result<int>)
    ensures c.Ok? && 0 <= r <= 0x10FFFF ==> c.value == r && Scalar(r)
  {
    if IsNoncharacter(r) then Err(Noncharacter)
    else if IsSurrogate(r) then Err(LoneSurrogate)
    else Ok(r)
  }

  datatype Decoded = Decoded(rune: int, rest: ByteString)

  /** Four hexadecimal digits. */
  function ReadHex4(s: ByteString): (r: Result<Decoded>)
    ensures r.Ok? ==> 0 <= r.value.rune < 0x10000 && |s| >= 4 && r.value.rest == s[4..]
  {
    if |s| < 4 || !IsHex4(s[..4]) then Err(InvalidGrammar) else Ok(Decoded(Hex4Value(s[..4]), s[4..]))
  }

  /** What follows \u. */
  function UnicodeEscape(s: ByteString): (r: Result<Decoded>)
    ensures r.Ok? ==> 0 <= r.value.rune <= 0x10FFFF && |r.value.rest| < |s|
  {
    match ReadHex4(s)
    case Err(e) => Err(e)
    case Ok(first) =>
      var r1, t := first.rune, first.rest;
      if !IsSurrogate(r1) then Ok(first)
      else if r1 >= 0xDC00 then Err(LoneSurrogate)
      else if |t| < 2 || t[0] != BACKSLASH || t[1] != 0x75 then Err(LoneSurrogate)
      else
        match ReadHex4(t[2..])
        case Err(e) => Err(e)
        case Ok(second) =>
          if second.rune < 0xDC00 || second.rune > 0xDFFF then Err(LoneSurrogate)
          else Ok(Decoded(DecodePair(r1, second.rune), second.rest))
  }

  /** What follows a backslash. */
  function Escape(s: ByteString): (r: Result<Decoded>)
    ensures r.Ok? ==> 0 <= r.value.rune <= 0x10FFFF && |r.value.rest| < |s|
  {
    if s == [] then Err(InvalidGrammar)
    else if s[0] == 0x75 then UnicodeEscape(s[1..])
    else if IsShortEscape(s[0]) then Ok(Decoded(EscapedRune(s[0]), s[1..]))
    else Err(InvalidGrammar)
  }

  datatype Scanned = Scanned(str: ByteString, rest: ByteString)

  /** What one turn of the general loop does: stop, or go on with less input and a longer string. */
  datatype Turn = Stop(result: Result<Scanned>) | Go(rest: ByteString, buf: ByteString)

  function GeneralTurn(s: ByteString, buf: ByteString, maxBytes: nat): (t: Turn)
    ensures t.Go? ==> |t.rest| < |s|
    ensures t.Stop? && t.result.Ok? ==> |t.result.value.rest| < |s|
  {
    if s == [] then Stop(Err(InvalidGrammar))
    else if s[0] == QUOTE then Stop(Ok(Scanned(buf, s[1..])))
    else if s[0] == BACKSLASH then
      match Escape(s[1..])
      case Err(e) => Stop(Err(e))
      case Ok(d) =>
        match CheckRune(d.rune)
        case Err(e) => Stop(Err(e))
        case Ok(r) =>
          var e := EncodeRune(r);
          if |buf| + |e| > maxBytes then Stop(Err(BoundExceeded)) else Go(d.rest, buf + e)
    else if s[0] < 0x20 then Stop(Err(InvalidGrammar))
    else
      var (r, size) := DecodeRune(s);
      if r == RUNE_ERROR && size <= 1 then Stop(Err(InvalidUtf8))
      else
        match CheckRune(r)
        case Err(e) => Stop(Err(e))
        case Ok(_) =>
          if |buf| + size > maxBytes then Stop(Err(BoundExceeded)) else Go(s[size..], buf + s[..size])
  }

  /** The general loop: the string decoded so far is `buf`, the input left is `s`. */
  function General(s: ByteString, buf: ByteString, maxBytes: nat): (r: Result<Scanned>)
    ensures r.Ok? ==> |r.value.rest| < |s|
    decreases |s|
  {
    match GeneralTurn(s, buf, maxBytes)
    case Stop(r) => r
    case Go(rest, more) => General(rest, more, maxBytes)
  }

  lemma GeneralDefinition(s: ByteString, buf: ByteString, maxBytes: nat)
    ensures var t := GeneralTurn(s, buf, maxBytes);
      General(s, buf, maxBytes) == if t.Stop? then t.result else General(t.rest, t.buf, maxBytes)
  {
  }

  predicate IsPlain(b: int) {
    0x20 <= b < 0x80 && b != QUOTE && b != BACKSLASH
  }

  /** Length of the run of printable ASCII that the fast path skips. */
  function PlainRun(s: ByteString): (p: nat)
    ensures p <= |s|
    ensures forall i | 0 <= i < p :: IsPlain(s[i])
    ensures p < |s| ==> !IsPlain(s[p])
  {
    if s == [] || !IsPlain(s[0]) then 0 else 1 + PlainRun(s[1..])
  }

  /** What follows the opening quote: the fast path, then the general loop. */
  function StringBody(s: ByteString, maxBytes: nat): (r: Result<Scanned>)
    ensures r.Ok? ==> |r.value.rest| < |s|
  {
    var p := PlainRun(s);
    if p < |s| && s[p] == QUOTE then
      if p > maxBytes then Err(BoundExceeded) else Ok(Scanned(s[..p], s[p + 1..]))
    else
      General(s[p..], s[..p], maxBytes)
  }

  function ScanString(s: ByteString, maxBytes: nat): (r: Result<Scanned>)
    ensures r.Ok? ==> |r.value.rest| < |s|
  {
    if s == [] || s[0] != QUOTE then Err(InvalidGrammar) else StringBody(s[1..], maxBytes)
  }

  // ---------- the fast path refines the general loop ----------

  lemma PlainStep(s: ByteString, buf: ByteString, maxBytes: nat)
    requires s != [] && IsPlain(s[0])
    ensures General(s, buf, maxBytes) ==
      if |buf| + 1 > maxBytes then Err(BoundExceeded) else General(s[1..], buf + [s[0]], maxBytes)
  {
    assert s[..1] == [s[0]];
  }

  /** The general loop skips a plain run, or exceeds the bound inside it. */
  lemma {:induction false} PlainRunStep(s: ByteString, buf: ByteString, maxBytes: nat)
    requires |buf| <= maxBytes
    ensures var p := PlainRun(s);
      General(s, buf, maxBytes) ==
        if |buf| + p > maxBytes then Err(BoundExceeded) else General(s[p..], buf + s[..p], maxBytes)
    decreases |s|
  {
    hide General;
    var p := PlainRun(s);
    if p == 0 {
      assert s[..0] == [] && buf + [] == buf;
    } else {
      PlainStep(s, buf, maxBytes);
      if |buf| + 1 <= maxBytes {
        PlainRunStep(s[1..], buf + [s[0]], maxBytes);
        assert s[1..][p - 1..] == s[p..];
        assert buf + [s[0]] + s[1..][..p - 1] == buf + s[..p];
      }
    }
  }

  /** A buffer beyond the bound never leads to success, except at a closing quote. */
  lemma OverlongFails(s: ByteString, buf: ByteString, maxBytes: nat)
    requires |buf| > maxBytes && (s == [] || s[0] != QUOTE)
    ensures General(s, buf, maxBytes).Err?
  {
  }

  /**
   * The fast path accepts the same strings as the general loop run from the opening quote,
   * with the same bytes and the same end. Failures agree too, unless the leading ASCII run
   * alone is beyond the bound.
   */
  lemma FastPathRefinesGeneral(s: ByteString, maxBytes: nat)
    ensures StringBody(s, maxBytes).Ok? <==> General(s, [], maxBytes).Ok?
    ensures StringBody(s, maxBytes).Ok? ==> StringBody(s, maxBytes) == General(s, [], maxBytes)
    ensures PlainRun(s) <= maxBytes ==> StringBody(s, maxBytes) == General(s, [], maxBytes)
  {
    var p := PlainRun(s);
    PlainRunStep(s, [], maxBytes);
    assert [] + s[..p] == s[..p];
    if p > maxBytes && !(p < |s| && s[p] == QUOTE) {
      OverlongFails(s[p..], s[..p], maxBytes);
    }
  }

  /** Whether the paths agree in full, by the run alone and by what the general loop meets after it. */
  ghost predicate PathsAgree(s: ByteString, maxBytes: nat) {
    var p := PlainRun(s);
    || p <= maxBytes
    || (p < |s| && s[p] == QUOTE)
    || GeneralTurn(s[p..], s[..p], maxBytes) == Stop(Err(BoundExceeded))
  }

  /**
   * Failure classes and all, the two paths agree exactly when the leading run is within the bound, or
   * is closed by its quote, or is followed by a character that is read without fault: a missing end,
   * a control character, a bad escape, a lone surrogate or a noncharacter after an over-long run is
   * reported by the fast path as such, and by the general loop as the bound it passed before.
   */
  lemma PathsAgreeExactly(s: ByteString, maxBytes: nat)
    ensures StringBody(s, maxBytes) == General(s, [], maxBytes) <==> PathsAgree(s, maxBytes)
  {
    hide General, GeneralTurn;
    var p := PlainRun(s);
    FastPathRefinesGeneral(s, maxBytes);
    PlainRunStep(s, [], maxBytes);
    GeneralDefinition(s[p..], s[..p], maxBytes);
    if p > maxBytes && !(p < |s| && s[p] == QUOTE) {
      OverlongTurn(s[p..], s[..p], maxBytes);
    }
  }

  lemma OverlongTurn(s: ByteString, buf: ByteString, maxBytes: nat)
    requires |buf| > maxBytes && (s == [] || s[0] != QUOTE)
    ensures var t := GeneralTurn(s, buf, maxBytes); t.Stop? && t.result.Err?
  {
  }

  /** One way to disagree: a control character after an over-long run. */
  lemma PathsFailDifferently(s: ByteString, maxBytes: nat)
    requires var p := PlainRun(s); maxBytes < p < |s| && s[p] < 0x20
    ensures StringBody(s, maxBytes) == Err(InvalidGrammar) && General(s, [], maxBytes) == Err(BoundExceeded)
  {
    PlainRunStep(s, [], maxBytes);
  }

  // ---------- completeness and soundness ----------

  lemma ReadHex4Complete(h: ByteString, rest: ByteString)
    requires IsHex4(h)
    ensures ReadHex4(h + rest) == Ok(Decoded(Hex4Value(h), rest))
  {
    assert (h + rest)[..4] == h && (h + rest)[4..] == rest;
  }

  lemma EscapeComplete(i: Item, rest: ByteString)
    requires WellFormedItem(i) && !i.Raw?
    ensures ItemText(i)[0] == BACKSLASH
    ensures Escape(ItemText(i)[1..] + rest) == Ok(Decoded(ItemRune(i), rest))
  {
    hide Escape, Hex4Value, EncodeRune, UnicodeEscape, DecodePair, IsNoncharacter, IsHex4;
    match i
    case Short(b) =>
      assert [BACKSLASH, b][1..] + rest == [b] + rest;
      ShortComplete(b, rest);
    case Hex(h) =>
      AfterMark(h, rest);
      HexComplete(h, rest);
    case Pair(h, l) =>
      AfterMark(h + ([BACKSLASH, 0x75] + l), rest);
      assert h + ([BACKSLASH, 0x75] + l) + rest == h + ([BACKSLASH, 0x75] + (l + rest));
      PairComplete(h, l, rest);
  }

  lemma ShortComplete(b: Byte, rest: ByteString)
    requires IsShortEscape(b)
    ensures Escape([b] + rest) == Ok(Decoded(EscapedRune(b), rest))
  {
    assert ([b] + rest)[1..] == rest;
  }

  lemma AfterMark(h: ByteString, rest: ByteString)
    ensures Escape(([BACKSLASH, 0x75] + h)[1..] + rest) == UnicodeEscape(h + rest)
  {
    hide UnicodeEscape;
    assert ([BACKSLASH, 0x75] + h)[1..] + rest == [0x75] + (h + rest);
    assert ([0x75] + (h + rest))[1..] == h + rest;
  }

  lemma HexComplete(h: ByteString, rest: ByteString)
    requires IsHex4(h) && !IsSurrogate(Hex4Value(h))
    ensures UnicodeEscape(h + rest) == Ok(Decoded(Hex4Value(h), rest))
  {
    hide ReadHex4, Hex4Value;
    ReadHex4Complete(h, rest);
  }

  lemma PairComplete(h: ByteString, l: ByteString, rest: ByteString)
    requires ShapedItem(Pair(h, l))
    ensures var r := DecodePair(Hex4Value(h), Hex4Value(l));
      UnicodeEscape(h + ([BACKSLASH, 0x75] + (l + rest))) == Ok(Decoded(r, rest))
  {
    hide ReadHex4, Hex4Value, DecodePair, IsNoncharacter;
    var u := [BACKSLASH, 0x75] + (l + rest);
    ReadHex4Complete(h, u);
    assert u[0] == BACKSLASH && u[1] == 0x75 && u[2..] == l + rest;
    ReadHex4Complete(l, rest);
  }

  lemma RawHead(r: int, tail: ByteString)
    requires ShapedItem(Raw(r))
    ensures var t := EncodeRune(r) + tail;
      t[0] >= 0x20 && t[0] != QUOTE && t[0] != BACKSLASH
      && t[..|EncodeRune(r)|] == EncodeRune(r) && t[|EncodeRune(r)|..] == tail
  {
    var e := EncodeRune(r);
    assert (e + tail)[0] == e[0];
    assert e[0] in e;
  }

  lemma GeneralStep(i: Item, tail: ByteString, buf: ByteString, maxBytes: nat)
    requires WellFormedItem(i)
    ensures var e := EncodeRune(ItemRune(i));
      General(ItemText(i) + tail, buf, maxBytes) ==
        if |buf| + |e| > maxBytes then Err(BoundExceeded) else General(tail, buf + e, maxBytes)
  {
    hide Escape, DecodeRune, EncodeRune, ItemRune, IsNoncharacter;
    var s := ItemText(i) + tail;
    if i.Raw? {
      RawHead(i.rune, tail);
      DecodeEncoded(i.rune, tail);
      RawRune(i.rune);
    } else {
      EscapeComplete(i, tail);
      assert s[1..] == ItemText(i)[1..] + tail;
      ScalarChecks(ItemRune(i));
    }
  }

  lemma RawRune(r: int)
    requires WellFormedItem(Raw(r))
    ensures ItemRune(Raw(r)) == r && CheckRune(r) == Ok(r)
  {
  }

  lemma ScalarChecks(r: int)
    requires Scalar(r) && !IsNoncharacter(r)
    ensures CheckRune(r) == Ok(r)
  {
  }

  lemma GeneralAtQuote(rest: ByteString, buf: ByteString, maxBytes: nat)
    ensures General([QUOTE] + rest, buf, maxBytes) == Ok(Scanned(buf, rest))
  {
    assert ([QUOTE] + rest)[1..] == rest;
  }

  /** Every well-formed literal within the bound is scanned to the string it denotes. */
  lemma {:induction false} GeneralComplete(items: seq<Item>, rest: ByteString, buf: ByteString, maxBytes: nat)
    requires WellFormedItems(items) && |buf| + |Denoted(items)| <= maxBytes
    ensures General(ItemsText(items) + ([QUOTE] + rest), buf, maxBytes)
         == Ok(Scanned(buf + Denoted(items), rest))
    decreases |items|
  {
    hide General, ItemText, EncodeRune, ItemRune;
    if items == [] {
      assert ItemsText(items) + ([QUOTE] + rest) == [QUOTE] + rest;
      assert buf + Denoted(items) == buf;
      GeneralAtQuote(rest, buf, maxBytes);
    } else {
      var tail := ItemsText(items[1..]) + ([QUOTE] + rest);
      var e := EncodeRune(ItemRune(items[0]));
      assert ItemsText(items) + ([QUOTE] + rest) == ItemText(items[0]) + tail;
      GeneralStep(items[0], tail, buf, maxBytes);
      GeneralComplete(items[1..], rest, buf + e, maxBytes);
      assert buf + Denoted(items) == buf + e + Denoted(items[1..]);
    }
  }

  /** An escape that scans is a well-formed item. */
  lemma EscapeSound(s: ByteString) returns (i: Item)
    requires Escape(s).Ok? && CheckRune(Escape(s).value.rune).Ok?
    ensures WellFormedItem(i) && ItemRune(i) == Escape(s).value.rune
    ensures [BACKSLASH] + s == ItemText(i) + Escape(s).value.rest
  {
    if s[0] == 0x75 {
      var h := s[1..][..4];
      var r1 := Hex4Value(h);
      if !IsSurrogate(r1) {
        i := Hex(h);
        assert s == [s[0]] + (h + s[1..][4..]);
      } else {
        var t := s[1..][4..];
        var l := t[2..][..4];
        i := Pair(h, l);
        assert t == [t[0], t[1]] + (l + t[2..][4..]);
        assert s == [s[0]] + (h + t);
      }
    } else {
      i := Short(s[0]);
      assert s == [s[0]] + s[1..];
    }
  }

  lemma GeneralNonempty(s: ByteString, buf: ByteString, maxBytes: nat)
    requires General(s, buf, maxBytes).Ok?
    ensures s != []
  {
  }

  /** One turn of the general loop that does not fail takes one well-formed item. */
  lemma GeneralHead(s: ByteString, buf: ByteString, maxBytes: nat) returns (head: Item, tail: ByteString)
    requires General(s, buf, maxBytes).Ok? && s[0] != QUOTE
    ensures WellFormedItem(head) && s == ItemText(head) + tail && |tail| < |s|
    ensures var e := EncodeRune(ItemRune(head));
      |buf| + |e| <= maxBytes && General(s, buf, maxBytes) == General(tail, buf + e, maxBytes)
  {
    hide DecodeRune, EncodeRune, Escape, IsNoncharacter;
    if s[0] == BACKSLASH {
      head := EscapeSound(s[1..]);
      tail := Escape(s[1..]).value.rest;
      assert s == [BACKSLASH] + s[1..];
    } else {
      EncodeDecoded(s);
      RawFits(s);
      head := Raw(DecodeRune(s).0);
      tail := s[DecodeRune(s).1..];
    }
  }

  /** Whatever scans is a well-formed literal, and the result is what it denotes. */
  lemma {:induction false} GeneralSound(s: ByteString, buf: ByteString, maxBytes: nat) returns (items: seq<Item>)
    requires General(s, buf, maxBytes).Ok?
    ensures WellFormedItems(items)
    ensures var r := General(s, buf, maxBytes).value;
      s == ItemsText(items) + ([QUOTE] + r.rest) && r.str == buf + Denoted(items)
    ensures |buf| <= maxBytes ==> |General(s, buf, maxBytes).value.str| <= maxBytes
    decreases |s|
  {
    hide General, EncodeRune, ItemRune, ItemText;
    GeneralNonempty(s, buf, maxBytes);
    if s[0] == QUOTE {
      items := [];
      assert s == [QUOTE] + s[1..];
      GeneralAtQuote(s[1..], buf, maxBytes);
      assert buf + Denoted(items) == buf;
    } else {
      var head, tail := GeneralHead(s, buf, maxBytes);
      var e := EncodeRune(ItemRune(head));
      var more := GeneralSound(tail, buf + e, maxBytes);
      items := [head] + more;
      assert items[1..] == more;
      assert buf + Denoted(items) == buf + e + Denoted(more);
    }
  }

  lemma RawFits(s: ByteString)
    requires GoodRune(DecodeRune(s)) && CheckRune(DecodeRune(s).0).Ok?
    requires s[0] >= 0x20 && s[0] != QUOTE && s[0] != BACKSLASH
    ensures WellFormedItem(Raw(DecodeRune(s).0)) && ItemRune(Raw(DecodeRune(s).0)) == DecodeRune(s).0
    ensures s == s[..DecodeRune(s).1] + s[DecodeRune(s).1..]
  {
    EncodeDecoded(s);
  }

  /** Scanning after the opening quote succeeds exactly on the well-formed literals within the bound. */
  lemma StringBodyComplete(items: seq<Item>, rest: ByteString, maxBytes: nat)
    requires WellFormedItems(items) && |Denoted(items)| <= maxBytes
    ensures StringBody(ItemsText(items) + ([QUOTE] + rest), maxBytes) == Ok(Scanned(Denoted(items), rest))
  {
    hide General;
    GeneralComplete(items, rest, [], maxBytes);
    FastPathRefinesGeneral(ItemsText(items) + ([QUOTE] + rest), maxBytes);
    assert [] + Denoted(items) == Denoted(items);
  }

  lemma StringBodySound(s: ByteString, maxBytes: nat) returns (items: seq<Item>)
    requires StringBody(s, maxBytes).Ok?
    ensures WellFormedItems(items)
    ensures var r := StringBody(s, maxBytes).value;
      s == ItemsText(items) + ([QUOTE] + r.rest) && r.str == Denoted(items) && |r.str| <= maxBytes
  {
    hide General;
    FastPathRefinesGeneral(s, maxBytes);
    items := GeneralSound(s, [], maxBytes);
    assert [] + Denoted(items) == Denoted(items);
  }

  // ---------- canonical escaping (section 3.2.2.2 of RFC 8785) ----------

  function HexDigit(b: int): Byte
    requires 0 <= b < 16
  {
    if b < 10 then 0x30 + b else 0x61 + (b - 10)
  }

  /** The escape of a byte that must be escaped; the empty string for any other byte. */
  function EscapeOf(b: Byte): ByteString {
    if b == QUOTE then [BACKSLASH, QUOTE]
    else if b == BACKSLASH then [BACKSLASH, BACKSLASH]
    else if b == 0x08 then [BACKSLASH, 0x62]
    else if b == 0x09 then [BACKSLASH, 0x74]
    else if b == 0x0A then [BACKSLASH, 0x6E]
    else if b == 0x0C then [BACKSLASH, 0x66]
    else if b == 0x0D then [BACKSLASH, 0x72]
    else if b < 0x20 then [BACKSLASH, 0x75, 0x30, 0x30, HexDigit(b / 16), HexDigit(b % 16)]
    else []
  }

  function Utf8SeqLen(b: int): nat {
    if b < 0x80 then 1 else if b < 0xE0 then 2 else if b < 0xF0 then 3 else 4
  }

  /** How many bytes to copy unescaped from the front of `s`. */
  function ByteSpanForCopy(s: ByteString): (n: nat)
    requires s != []
    ensures 1 <= n <= |s|
  {
    if s[0] < 0x80 then 1
    else if Utf8SeqLen(s[0]) > |s| then |s|
    else Utf8SeqLen(s[0])
  }

  /** The text between the quotes. */
  function Escaped(s: ByteString): ByteString {
    if s == [] then []
    else if EscapeOf(s[0]) != [] then EscapeOf(s[0]) + Escaped(s[1..])
    else s[..ByteSpanForCopy(s)] + Escaped(s[ByteSpanForCopy(s)..])
  }

  function Quoted(s: ByteString): ByteString {
    [QUOTE] + Escaped(s) + [QUOTE]
  }

  /** How a scalar value is written canonically. */
  function CanonicalItem(r: int): Item {
    if r == QUOTE then Short(QUOTE)
    else if r == BACKSLASH then Short(BACKSLASH)
    else if r == 0x08 then Short(0x62)
    else if r == 0x09 then Short(0x74)
    else if r == 0x0A then Short(0x6E)
    else if r == 0x0C then Short(0x66)
    else if r == 0x0D then Short(0x72)
    else if 0 <= r < 0x20 then Hex([0x30, 0x30, HexDigit(r / 16), HexDigit(r % 16)])
    else Raw(r)
  }

  function CanonicalItems(rs: seq<int>): seq<Item> {
    seq(|rs|, i requires 0 <= i < |rs| => CanonicalItem(rs[i]))
  }

  /** A string the pipeline carries: valid UTF-8 without noncharacters. */
  ghost predicate CleanString(s: ByteString) {
    ValidUtf8(s) && forall r | r in Runes(s) :: !IsNoncharacter(r)
  }

  lemma CanonicalItemCorrect(r: int)
    requires Scalar(r) && !IsNoncharacter(r)
    ensures WellFormedItem(CanonicalItem(r)) && ItemRune(CanonicalItem(r)) == r
  {
  }

  lemma CanonicalItemText(r: int)
    requires Scalar(r) && !IsNoncharacter(r)
    ensures WellFormedItem(CanonicalItem(r))
    ensures var e := EncodeRune(r);
      if EscapeOf(e[0]) != [] then ItemText(CanonicalItem(r)) == EscapeOf(e[0]) && |e| == 1
      else ItemText(CanonicalItem(r)) == e
  {
    CanonicalItemCorrect(r);
  }

  /** The leading byte of an encoded scalar value tells its width. */
  lemma SpanIsRune(r: int, tail: ByteString)
    requires Scalar(r)
    ensures ByteSpanForCopy(EncodeRune(r) + tail) == |EncodeRune(r)|
  {
    var e := EncodeRune(r);
    assert (e + tail)[0] == e[0];
  }

  lemma EscapedStep(r: int, tail: ByteString)
    requires Scalar(r) && !IsNoncharacter(r)
    ensures WellFormedItem(CanonicalItem(r))
    ensures Escaped(EncodeRune(r) + tail) == ItemText(CanonicalItem(r)) + Escaped(tail)
  {
    hide CanonicalItem, ItemText, EscapeOf, WellFormedItem, EncodeRune, ByteSpanForCopy;
    var e := EncodeRune(r);
    CanonicalItemText(r);
    SpanIsRune(r, tail);
    var s := e + tail;
    assert s[0] == e[0] && s[..|e|] == e && s[|e|..] == tail;
  }

  /** The serializer writes the canonical item of every scalar value. */
  lemma {:induction false} EscapedIsCanonical(s: ByteString)
    requires CleanString(s)
    ensures WellFormedItems(CanonicalItems(Runes(s)))
    ensures Escaped(s) == ItemsText(CanonicalItems(Runes(s)))
    ensures Denoted(CanonicalItems(Runes(s))) == s
    decreases |s|
  {
    hide CanonicalItem, ItemText, EncodeRune, ItemRune, DecodeRune, WellFormedItem, IsNoncharacter, Escaped;
    if s == [] {
      assert Escaped([]) == [] by { EscapedEmpty(); }
    } else {
      var (r, n) := DecodeRune(s);
      EncodeDecoded(s);
      var tail := s[n..];
      assert Runes(s) == [r] + Runes(tail);
      assert s == s[..n] + tail;
      EscapedStep(r, tail);
      CanonicalItemCorrect(r);
      EscapedIsCanonical(tail);
      assert CanonicalItems(Runes(s)) == [CanonicalItem(r)] + CanonicalItems(Runes(tail));
    }
  }

  lemma EscapedEmpty()
    ensures Escaped([]) == []
  {
  }

  /** Scanning what the serializer wrote consumes exactly that and returns the original bytes. */
  lemma StringRoundTrip(s: ByteString, rest: ByteString, maxBytes: nat)
    requires CleanString(s) && |s| <= maxBytes
    ensures ScanString(Quoted(s) + rest, maxBytes) == Ok(Scanned(s, rest))
  {
    hide Escaped, StringBody, CleanString, CanonicalItems, Runes, ItemsText, Denoted, WellFormedItems;
    EscapedIsCanonical(s);
    var t := Quoted(s) + rest;
    assert t[1..] == ItemsText(CanonicalItems(Runes(s))) + ([QUOTE] + rest);
    StringBodyComplete(CanonicalItems(Runes(s)), rest, maxBytes);
  }

  /** A scanned string is clean. */
  lemma {:induction false} DenotedIsClean(items: seq<Item>)
    requires WellFormedItems(items)
    ensures CleanString(Denoted(items))
  {
    hide EncodeRune, ItemRune, DecodeRune, WellFormedItem, IsNoncharacter;
    if items != [] {
      var r := ItemRune(items[0]);
      var tail := Denoted(items[1..]);
      DenotedIsClean(items[1..]);
      ItemIsScalar(items[0]);
      DecodeEncoded(r, tail);
      assert (EncodeRune(r) + tail)[|EncodeRune(r)|..] == tail;
      assert Runes(Denoted(items)) == [r] + Runes(tail);
    }
  }

  lemma ItemIsScalar(i: Item)
    requires WellFormedItem(i)
    ensures Scalar(ItemRune(i)) && !IsNoncharacter(ItemRune(i))
  {
  }
}
