/**
 * Reported faults are real: when parsing fails for a number, a character or a repeated name, what was
 * read up to there, closed by quotes, brackets and the like, is a text of the grammar with that fault.
 */
module Blame {
  import opened Bytes
  import opened Unicode
  import opened Tokens
  import opened Strings
  import opened Numbers
  import opened Values
  import opened Grammar
  import opened Parsing
  import opened Faults

  /** Nothing but a closing quote, a null for a name, and closing brackets: no fault of its own. */
  ghost predicate Closing(t: ByteString) {
    exists a, b, cs ::
      && t == a + (b + cs) && (a == [] || a == [QUOTE]) && (b == [] || b == [COLON] + NULL_TEXT)
      && AllClosers(cs)
  }

  ghost predicate AllClosers(cs: ByteString) {
    forall c | c in cs :: c == RIGHT_BRACKET || c == RIGHT_BRACE
  }

  lemma ClosingOf(a: ByteString, b: ByteString)
    requires (a == [] || a == [QUOTE]) && (b == [] || b == [COLON] + NULL_TEXT)
    ensures Closing(a + b)
  {
    assert a + b == a + (b + []);
    assert AllClosers([]);
  }

  lemma ClosingMore(t: ByteString, c: Byte)
    requires Closing(t) && (c == RIGHT_BRACKET || c == RIGHT_BRACE)
    ensures Closing(t + [c])
  {
    var a, b, cs :|
      && t == a + (b + cs) && (a == [] || a == [QUOTE]) && (b == [] || b == [COLON] + NULL_TEXT)
      && AllClosers(cs);
    assert t + [c] == a + (b + (cs + [c]));
    assert AllClosers(cs + [c]);
  }

  /** `text` begins as the input `s` does, and then only closes. */
  ghost predicate Continues(s: ByteString, text: ByteString) {
    exists p, t, u :: s == p + u && text == p + t && Closing(t)
  }

  lemma ContinuesAfter(x: ByteString, s: ByteString, text: ByteString)
    requires Continues(s, text)
    ensures Continues(x + s, x + text)
  {
    hide Closing;
    var p, t, u :| s == p + u && text == p + t && Closing(t);
    AppendAssociative(x, p, u);
    AppendAssociative(x, p, t);
  }

  lemma ContinuesClosed(s: ByteString, text: ByteString, c: Byte)
    requires Continues(s, text) && (c == RIGHT_BRACKET || c == RIGHT_BRACE)
    ensures Continues(s, text + [c])
  {
    var p, t, u :| s == p + u && text == p + t && Closing(t);
    ClosingMore(t, c);
    assert text + [c] == p + (t + [c]);
  }

  lemma ContinuesBy(p: ByteString, u: ByteString, a: ByteString, b: ByteString)
    requires (a == [] || a == [QUOTE]) && (b == [] || b == [COLON] + NULL_TEXT)
    ensures Continues(p + u, p + (a + b))
  {
    ClosingOf(a, b);
  }

  // ---------- strings ----------

  /** A turn that goes on has read a well-formed item. */
  lemma GoHead(s: ByteString, buf: ByteString, maxBytes: nat) returns (head: Item)
    requires GeneralTurn(s, buf, maxBytes).Go?
    ensures WellFormedItem(head) && s == ItemText(head) + GeneralTurn(s, buf, maxBytes).rest
  {
    hide DecodeRune, EncodeRune, Escape, IsNoncharacter;
    if s[0] == BACKSLASH {
      head := EscapeSound(s[1..]);
      assert s == [BACKSLASH] + s[1..];
    } else {
      EncodeDecoded(s);
      RawFits(s);
      head := Raw(DecodeRune(s).0);
    }
  }

  /** A turn that stops for a character has met a faulty item. */
  lemma StopHead(s: ByteString, buf: ByteString, maxBytes: nat, c: FailureClass) returns (head: Item, rest: ByteString)
    requires GeneralTurn(s, buf, maxBytes) == Stop(Err(c)) && (c == LoneSurrogate || c == Noncharacter)
    ensures ShapedItem(head) && ItemFault(head) == Fail(c) && s == ItemText(head) + rest
  {
    hide DecodeRune, EncodeRune, Escape, IsNoncharacter, Hex4Value;
    if s[0] == BACKSLASH {
      head, rest := StopEscape(s[1..], c);
      assert s == [BACKSLASH] + s[1..];
    } else {
      EncodeDecoded(s);
      head := Raw(DecodeRune(s).0);
      rest := s[DecodeRune(s).1..];
      assert s == s[..DecodeRune(s).1] + rest;
    }
  }

  lemma StopEscape(s: ByteString, c: FailureClass) returns (head: Item, rest: ByteString)
    requires c == LoneSurrogate || c == Noncharacter
    requires Escape(s) == Err(c) || (Escape(s).Ok? && CheckRune(Escape(s).value.rune) == Err(c))
    ensures ShapedItem(head) && ItemFault(head) == Fail(c) && [BACKSLASH] + s == ItemText(head) + rest
  {
    hide UnicodeEscape, CheckRune;
    ShortRunes();
    head, rest := StopUnicode(s[1..], c);
    assert [BACKSLASH] + s == [BACKSLASH, 0x75] + s[1..];
  }

  /** The escape of four digits, or the pair, at the front of what follows \u. */
  lemma StopUnicode(s: ByteString, c: FailureClass) returns (head: Item, rest: ByteString)
    requires c == LoneSurrogate || c == Noncharacter
    requires UnicodeEscape(s) == Err(c) || (UnicodeEscape(s).Ok? && CheckRune(UnicodeEscape(s).value.rune) == Err(c))
    ensures ShapedItem(head) && ItemFault(head) == Fail(c) && [BACKSLASH, 0x75] + s == ItemText(head) + rest
  {
    hide IsNoncharacter, Hex4Value, IsHexDigit;
    var h := s[..4];
    var t := s[4..];
    assert s == h + t;
    if UnicodeEscape(s).Ok? && IsSurrogate(Hex4Value(h)) {
      var l := t[2..][..4];
      rest := t[2..][4..];
      head := Pair(h, l);
      assert t[2..] == l + rest;
      FirstTwo(t);
      PairText(h, l, rest);
    } else {
      head, rest := Hex(h), t;
      AppendAssociative([BACKSLASH, 0x75], h, t);
    }
  }

  lemma FirstTwo(t: ByteString)
    requires |t| >= 2
    ensures t == [t[0], t[1]] + t[2..]
  {
  }

  lemma PairText(h: ByteString, l: ByteString, rest: ByteString)
    requires ShapedItem(Pair(h, l))
    ensures [BACKSLASH, 0x75] + (h + ([BACKSLASH, 0x75] + (l + rest))) == ItemText(Pair(h, l)) + rest
  {
    AppendAssociative([BACKSLASH, 0x75], l, rest);
    AppendAssociative(h, [BACKSLASH, 0x75] + l, rest);
    AppendAssociative([BACKSLASH, 0x75], h + ([BACKSLASH, 0x75] + l), rest);
  }

  lemma ShortRunes()
    ensures forall b | IsShortEscape(b) :: CheckRune(EscapedRune(b)).Ok?
  {
  }

  lemma {:induction false} GeneralBlame(s: ByteString, buf: ByteString, maxBytes: nat, c: FailureClass)
    returns (items: seq<Item>, rest: ByteString)
    requires General(s, buf, maxBytes) == Err(c) && (c == LoneSurrogate || c == Noncharacter)
    ensures ShapedItems(items) && ItemsFault(items) == Fail(c) && s == ItemsText(items) + rest
    decreases |s|
  {
    hide General, GeneralTurn, ItemText, ItemFault, ShapedItem, WellFormedItem;
    GeneralDefinition(s, buf, maxBytes);
    var turn := GeneralTurn(s, buf, maxBytes);
    if turn.Stop? {
      var head, tail := StopHead(s, buf, maxBytes, c);
      items, rest := [head], tail;
      assert ItemsText(items) == ItemText(head) + ItemsText([]) == ItemText(head);
    } else {
      var head := GoHead(s, buf, maxBytes);
      var more, tail := GeneralBlame(turn.rest, turn.buf, maxBytes, c);
      items, rest := [head] + more, tail;
      PrefixItem(head, more);
      assert ItemText(head) + (ItemsText(more) + rest) == ItemsText(items) + rest;
    }
  }

  lemma PrefixItem(head: Item, more: seq<Item>)
    requires WellFormedItem(head) && ShapedItems(more)
    ensures ShapedItems([head] + more)
    ensures ItemsFault([head] + more) == ItemsFault(more)
    ensures ItemsText([head] + more) == ItemText(head) + ItemsText(more)
  {
    hide ItemText, Hex4Value;
    var items := [head] + more;
    ItemFaultless(head);
    assert forall i | 0 <= i < |items| :: ShapedItem(items[i]);
    forall i | 0 <= i < |items| - 1 ensures !SplitPair(items[i], items[i + 1]) {
      if i > 0 {
        assert items[i] == more[i - 1] && items[i + 1] == more[i];
      }
    }
    assert items[1..] == more;
  }

  /** A string that fails for a character, closed by its quote. */
  lemma StringBlame(s: ByteString, maxBytes: nat, c: FailureClass) returns (items: seq<Item>)
    requires ScanString(s, maxBytes) == Err(c) && (c == LoneSurrogate || c == Noncharacter)
    ensures ShapedItems(items) && ItemsFault(items) == Fail(c)
    ensures exists p, u :: s == p + u && StringText(items) == p + [QUOTE]
  {
    hide General, ItemsText, ShapedItems, ItemsFault;
    var body := s[1..];
    var rest;
    items, rest := BodyBlame(body, maxBytes, c);
    var q := [QUOTE] + ItemsText(items);
    assert s == [QUOTE] + body;
    assert s == q + rest && StringText(items) == q + [QUOTE];
  }

  /** The fast path's run is plain characters; with it, the items of the general loop are those of the literal. */
  lemma BodyBlame(s: ByteString, maxBytes: nat, c: FailureClass) returns (items: seq<Item>, rest: ByteString)
    requires StringBody(s, maxBytes) == Err(c) && (c == LoneSurrogate || c == Noncharacter)
    ensures ShapedItems(items) && ItemsFault(items) == Fail(c) && s == ItemsText(items) + rest
  {
    hide General, ItemsText, ShapedItems, ItemsFault, IsPlain;
    var p := PlainRun(s);
    var more;
    more, rest := GeneralBlame(s[p..], s[..p], maxBytes, c);
    items := PlainItems(s[..p], more);
    assert s == s[..p] + s[p..];
    AppendAssociative(s[..p], ItemsText(more), rest);
  }

  lemma {:induction false} PlainItems(run: ByteString, more: seq<Item>) returns (items: seq<Item>)
    requires ShapedItems(more) && forall i | 0 <= i < |run| :: IsPlain(run[i])
    ensures ShapedItems(items) && ItemsFault(items) == ItemsFault(more) && ItemsText(items) == run + ItemsText(more)
  {
    hide ItemsText, ShapedItems, ItemsFault;
    if run == [] {
      items := more;
      assert run + ItemsText(more) == ItemsText(more);
    } else {
      var tail := PlainItems(run[1..], more);
      PlainItem(run[0]);
      PrefixItem(Raw(run[0]), tail);
      items := [Raw(run[0])] + tail;
      assert run == [run[0]] + run[1..];
      assert [run[0]] + (run[1..] + ItemsText(more)) == run + ItemsText(more);
    }
  }

  lemma PlainItem(b: Byte)
    requires IsPlain(b)
    ensures WellFormedItem(Raw(b)) && ItemText(Raw(b)) == [b]
  {
  }

  // ---------- numbers ----------

  ghost predicate IsNumberFault(c: FailureClass) {
    c == NumberOverflow || c == NumberNegZero || c == NumberUnderflow
  }

  lemma {:induction false} DigitsFail(s: ByteString, total: nat, maxChars: int)
    ensures ScanDigits(s, total, maxChars).Err? ==> ScanDigits(s, total, maxChars) == Err(BoundExceeded)
  {
    if s != [] {
      DigitsFail(s[1..], total, maxChars);
    }
  }

  /** Scanning a token fails for the grammar or for its length only. */
  lemma TokenFails(s: ByteString, maxChars: int)
    ensures var r := ScanToken(s, maxChars); r.Err? ==> r.failure == InvalidGrammar || r.failure == BoundExceeded
  {
    hide ScanDigits;
    forall t: ByteString, n: nat
      ensures ScanDigits(t, n, maxChars).Err? ==> ScanDigits(t, n, maxChars) == Err(BoundExceeded)
    {
      DigitsFail(t, n, maxChars);
    }
  }

  lemma NumberBlame(s: ByteString, maxChars: int, c: FailureClass) returns (t: Token, u: ByteString)
    requires ScanNumber(s, maxChars) == Err(c) && IsNumberFault(c)
    ensures WellFormed(t) && TokenFault(t) == Fail(c) && s == TokenText(t) + u
  {
    hide ScanToken, BuildNumber, TokenText, WellFormed, NumberOutcome;
    TokenFails(s, maxChars);
    u := ScanToken(s, maxChars).value;
    t := TokenSound(s, maxChars);
    BuildNumberOutcome(t);
    assert s[..|s| - |u|] == TokenText(t);
  }

  /** Reading a number fails for the grammar, its length, or its value. */
  lemma NumberFails(s: ByteString, maxChars: int)
    ensures var r := ScanNumber(s, maxChars);
      r.Err? ==> r.failure == InvalidGrammar || r.failure == BoundExceeded || IsNumberFault(r.failure)
  {
    hide ScanToken, ParseFloat, TokenRepresentsZero;
    TokenFails(s, maxChars);
  }

  /** Reading a string fails for the grammar, its length, its encoding, or a character. */
  lemma StringFails(s: ByteString, maxBytes: nat)
    ensures var r := ScanString(s, maxBytes);
      r.Err? ==> r.failure != DuplicateKey && !IsNumberFault(r.failure)
  {
    hide General;
    if s != [] {
      var p := PlainRun(s[1..]);
      GeneralFails(s[1..][p..], s[1..][..p], maxBytes);
    }
  }

  lemma {:induction false} GeneralFails(s: ByteString, buf: ByteString, maxBytes: nat)
    ensures var r := General(s, buf, maxBytes);
      r.Err? ==> r.failure != DuplicateKey && !IsNumberFault(r.failure)
    decreases |s|
  {
    hide DecodeRune, EncodeRune, Hex4Value, IsNoncharacter;
    var turn := GeneralTurn(s, buf, maxBytes);
    if turn.Go? {
      GeneralFails(turn.rest, turn.buf, maxBytes);
    }
  }

  // ---------- values ----------

  ghost predicate ValueBlamed(j: Json, s: ByteString, c: FailureClass) {
    Shaped(j) && TreeFault(j) == Fail(c) && Continues(s, Text(j))
  }

  lemma {:induction false} ValueBlame(s: ByteString, depth: nat, count: nat, l: Limits, c: FailureClass)
    returns (j: Json)
    requires ParseValue(s, depth, count, l) == Err(c) && IsTreeFault(c) && depth <= l.maxDepth
    ensures ValueBlamed(j, s, c)
    decreases |s|, 3
  {
    hide ScanString, ScanNumber, ParseElems, ParseMembers, SkipSpace, Shaped, TreeFault, Text, Continues;
    hide ElemsText, MembersText, ElemsFault, MembersFault, ShapedElems, ShapedMembers;
    if s[0] == LEFT_BRACE {
      var m := MembersBlame(s[1..], depth + 1, count + 1, [], l, c);
      NoKeys();
      j := JObject(m);
      WrapObjectBlame(m, s, c);
    } else if s[0] == LEFT_BRACKET {
      var e := ElemsBlame(s[1..], depth + 1, count + 1, [], l, c);
      j := JArray(e);
      WrapArrayBlame(e, s, c);
    } else {
      j := LeafBlame(s, l, c);
    }
  }

  lemma LeafBlame(s: ByteString, l: Limits, c: FailureClass) returns (j: Json)
    requires IsTreeFault(c) && s != []
    requires s[0] == QUOTE ==> ScanString(s, l.maxStringBytes) == Err(c)
    requires s[0] != QUOTE ==> ScanNumber(s, l.maxNumberChars) == Err(c)
    ensures ValueBlamed(j, s, c)
  {
    hide ScanString, ScanNumber, TokenText, StringText, ShapedItems, WellFormed, TokenFault, Closing, ItemsFault;
    if s[0] == QUOTE {
      StringFails(s, l.maxStringBytes);
      var items := StringBlame(s, l.maxStringBytes, c);
      j := JString(items);
      var p, u :| s == p + u && StringText(items) == p + [QUOTE];
      ContinuesBy(p, u, [QUOTE], []);
      assert [QUOTE] + [] == [QUOTE];
    } else {
      NumberFails(s, l.maxNumberChars);
      var t, u := NumberBlame(s, l.maxNumberChars, c);
      j := JNumber(t);
      ContinuesBy(TokenText(t), u, [], []);
      assert TokenText(t) + ([] + []) == TokenText(t);
    }
  }

  lemma WrapArrayBlame(e: Elems, s: ByteString, c: FailureClass)
    requires s != [] && s[0] == LEFT_BRACKET
    requires ShapedElems(e) && ElemsFault(e) == Fail(c) && Continues(s[1..], ElemsText(e))
    ensures ValueBlamed(JArray(e), s, c)
  {
    hide Continues, ElemsText, ElemsFault, ShapedElems;
    ContinuesClosed(s[1..], ElemsText(e), RIGHT_BRACKET);
    ContinuesAfter([LEFT_BRACKET], s[1..], ElemsText(e) + [RIGHT_BRACKET]);
    assert s == [LEFT_BRACKET] + s[1..];
  }

  lemma WrapObjectBlame(m: Members, s: ByteString, c: FailureClass)
    requires s != [] && s[0] == LEFT_BRACE
    requires ShapedMembers(m) && MembersFault(m, []) == Fail(c) && Continues(s[1..], MembersText(m))
    ensures ValueBlamed(JObject(m), s, c)
  {
    hide Continues, MembersText, MembersFault, ShapedMembers;
    ContinuesClosed(s[1..], MembersText(m), RIGHT_BRACE);
    ContinuesAfter([LEFT_BRACE], s[1..], MembersText(m) + [RIGHT_BRACE]);
    assert s == [LEFT_BRACE] + s[1..];
  }

  lemma {:induction false} ElemsBlame(
    s: ByteString, depth: nat, count: nat, elems: seq<Value>, l: Limits, c: FailureClass) returns (e: Elems)
    requires ParseElems(SkipSpace(s), depth, count, elems, l) == Err(c) && IsTreeFault(c)
    requires depth <= l.maxDepth
    ensures ShapedElems(e) && ElemsFault(e) == Fail(c) && Continues(s, ElemsText(e))
    decreases |s|, 4
  {
    hide ParseValue, ParseElems, SkipSpace, Shaped, TreeFault, Text, Continues, WellFormedJson;
    ElemsAfterSpace(s, depth, count, elems, l);
    ElemsDefinition(s, depth, count, elems, l);
    var t := SkipSpace(s);
    var gap := SkippedIsSpace(s);
    var r := ParseValue(t, depth, count, l);
    if r.Err? {
      var j := ValueBlame(t, depth, count, l, c);
      e := LastElem(gap, j, []);
      assert gap + (Text(j) + ([] + [])) == gap + Text(j);
      ContinuesAfter(gap, t, Text(j));
    } else {
      var j := ValueSound(t, depth, count, l);
      var p := r.value;
      assert t == Text(j) + p.rest;
      var after := SkippedIsSpace(p.rest);
      var next := SkipSpace(p.rest);
      var turn := ElemTurn(r, elems, l);
      assert turn.GoElems? && next == [COMMA] + turn.rest;
      ElemsAfterSpace(turn.rest, depth, turn.count, turn.elems, l);
      var more := ElemsBlame(turn.rest, depth, turn.count, turn.elems, l, c);
      e := MoreElems(gap, j, after, more);
      Faultless(j);
      ContinuesAfter([COMMA], turn.rest, ElemsText(more));
      ContinuesAfter(after, next, [COMMA] + ElemsText(more));
      ContinuesAfter(Text(j), p.rest, after + ([COMMA] + ElemsText(more)));
      ContinuesAfter(gap, t, Text(j) + (after + ([COMMA] + ElemsText(more))));
    }
  }

  lemma {:induction false} MembersBlame(
    s: ByteString, depth: nat, count: nat, members: seq<Entry<Value>>, l: Limits, c: FailureClass)
    returns (m: Members)
    requires ParseMembers(SkipSpace(s), depth, count, members, l) == Err(c) && IsTreeFault(c)
    requires depth <= l.maxDepth
    ensures ShapedMembers(m) && MembersFault(m, Keys(members)) == Fail(c) && Continues(s, MembersText(m))
    decreases |s|, 4
  {
    hide ParseValue, ParseMembers, SkipSpace, Shaped, TreeFault, Text, Continues, WellFormedJson, ScanString, Keys;
    hide StringText, ShapedItems, WellFormedItems, ItemsFault, DenoteString, Denoted, MembersFault, MembersText;
    MembersAfterSpace(s, depth, count, members, l);
    MembersDefinition(s, depth, count, members, l);
    var t := SkipSpace(s);
    var gap := SkippedIsSpace(s);
    var name := ScanString(t, l.maxStringBytes);
    if name.Err? {
      StringFails(t, l.maxStringBytes);
      m := BadNameBlame(gap, t, Keys(members), l, c);
    } else {
      var items := StringSound(t, l.maxStringBytes);
      var k, rest := name.value.str, name.value.rest;
      ItemsFaultless(items);
      if k in Keys(members) {
        m := RepeatedBlame(gap, items, rest, Keys(members));
      } else {
        var afterKey := SkippedIsSpace(rest);
        var colon := SkipSpace(rest);
        assert colon == [COLON] + colon[1..];
        var beforeValue := SkippedIsSpace(colon[1..]);
        var v := SkipSpace(colon[1..]);
        var r := ParseValue(v, depth, count, l);
        if r.Err? {
          var j := ValueBlame(v, depth, count, l, c);
          m := LastMember(gap, items, afterKey, beforeValue, j, []);
          LastFault(m, Keys(members));
          EmptyTail(Text(j));
          NameContinues(gap, items, afterKey, beforeValue, v, Text(j));
          LastText(m);
        } else {
          var j := ValueSound(v, depth, count, l);
          var p := r.value;
          var after := SkippedIsSpace(p.rest);
          var next := SkipSpace(p.rest);
          var turn := MemberTurn(k, r, members, l);
          assert turn.GoMembers? && next == [COMMA] + turn.rest;
          MembersAfterSpace(turn.rest, depth, turn.count, turn.members, l);
          var more := MembersBlame(turn.rest, depth, turn.count, turn.members, l, c);
          m := MoreMembers(gap, items, afterKey, beforeValue, j, after, more);
          Faultless(j);
          KeysAppended(members, Entry(k, p.value));
          MoreFault(m, Keys(members));
          var text := Text(j) + (after + ([COMMA] + MembersText(more)));
          ContinuesAfter([COMMA], turn.rest, MembersText(more));
          ContinuesAfter(after, next, [COMMA] + MembersText(more));
          ContinuesAfter(Text(j), p.rest, after + ([COMMA] + MembersText(more)));
          NameContinues(gap, items, afterKey, beforeValue, v, text);
          MoreText(m);
        }
      }
    }
  }

  /** A name with a bad character, closed and given a null. */
  lemma BadNameBlame(gap: ByteString, t: ByteString, names: seq<ByteString>, l: Limits, c: FailureClass)
    returns (m: Members)
    requires AllSpace(gap) && ScanString(t, l.maxStringBytes) == Err(c) && (c == LoneSurrogate || c == Noncharacter)
    ensures ShapedMembers(m) && MembersFault(m, names) == Fail(c) && Continues(gap + t, MembersText(m))
  {
    hide ScanString, StringText, ShapedItems, ItemsFault, DenoteString, Continues;
    var items := StringBlame(t, l.maxStringBytes, c);
    m := LastMember(gap, items, [], [], JNull, []);
    var p, u :| t == p + u && StringText(items) == p + [QUOTE];
    var rest := [COLON] + NULL_TEXT;
    ContinuesBy(p, u, [QUOTE], rest);
    ContinuesAfter(gap, t, p + ([QUOTE] + rest));
    assert (p + [QUOTE]) + rest == p + ([QUOTE] + rest);
    NullMember(m);
  }

  /** A repeated name, given a null. */
  lemma RepeatedBlame(gap: ByteString, items: seq<Item>, rest: ByteString, names: seq<ByteString>)
    returns (m: Members)
    requires AllSpace(gap) && WellFormedItems(items) && Denoted(items) in names
    ensures ShapedMembers(m) && MembersFault(m, names) == Fail(DuplicateKey)
    ensures Continues(gap + (StringText(items) + rest), MembersText(m))
  {
    hide StringText, ShapedItems, WellFormedItems, ItemsFault, DenoteString, Denoted, Continues;
    m := LastMember(gap, items, [], [], JNull, []);
    ItemsFaultless(items);
    var text, value := StringText(items), [COLON] + NULL_TEXT;
    ContinuesBy(text, rest, [], value);
    assert [] + value == value;
    ContinuesAfter(gap, text + rest, text + value);
    NullMember(m);
  }

  lemma NullMember(m: Members)
    requires m.LastMember? && ShapedItems(m.key) && m.value == JNull
    requires m.afterKey == [] == m.beforeValue && m.after == [] && AllSpace(m.before)
    ensures MembersText(m) == m.before + (StringText(m.key) + ([COLON] + NULL_TEXT))
  {
    hide StringText, ShapedItems;
    EmptyTail(NULL_TEXT);
    assert [] + NULL_TEXT == NULL_TEXT;
    assert [] + ([COLON] + NULL_TEXT) == [COLON] + NULL_TEXT;
  }

  lemma LastFault(m: Members, names: seq<ByteString>)
    requires m.LastMember? && ShapedMembers(m) && WellFormedItems(m.key) && Denoted(m.key) !in names
    requires TreeFault(m.value).Fail?
    ensures MembersFault(m, names) == TreeFault(m.value)
  {
    hide ShapedItems, WellFormedItems, ItemsFault, DenoteString, Denoted, TreeFault, Shaped;
    ItemsFaultless(m.key);
  }

  lemma MoreFault(m: Members, names: seq<ByteString>)
    requires m.MoreMembers? && ShapedMembers(m) && WellFormedItems(m.key) && Denoted(m.key) !in names
    requires TreeFault(m.value).Pass?
    ensures MembersFault(m, names) == MembersFault(m.rest, names + [Denoted(m.key)])
  {
    hide ShapedItems, WellFormedItems, ItemsFault, DenoteString, Denoted, TreeFault, Shaped;
    ItemsFaultless(m.key);
  }

  lemma EmptyTail(t: ByteString)
    ensures t + ([] + []) == t
  {
  }

  lemma LastText(m: Members)
    requires m.LastMember? && ShapedMembers(m) && m.after == []
    ensures MembersText(m) ==
      m.before + (StringText(m.key) + (m.afterKey + ([COLON] + (m.beforeValue + Text(m.value)))))
  {
    hide StringText, ShapedItems, Text, Shaped;
    EmptyTail(Text(m.value));
  }

  lemma MoreText(m: Members)
    requires m.MoreMembers? && ShapedMembers(m)
    ensures MembersText(m) ==
      m.before + (StringText(m.key) + (m.afterKey + ([COLON] + (m.beforeValue
        + (Text(m.value) + (m.after + ([COMMA] + MembersText(m.rest))))))))
  {
    hide StringText, ShapedItems, Text, Shaped;
  }

  /** What continues a value continues the member it is in. */
  lemma NameContinues(gap: ByteString, items: seq<Item>, afterKey: ByteString, beforeValue: ByteString,
                      v: ByteString, text: ByteString)
    requires ShapedItems(items) && Continues(v, text)
    ensures Continues(gap + (StringText(items) + (afterKey + ([COLON] + (beforeValue + v)))),
                      gap + (StringText(items) + (afterKey + ([COLON] + (beforeValue + text)))))
  {
    hide Continues, StringText, ShapedItems;
    ContinuesAfter(beforeValue, v, text);
    ContinuesAfter([COLON], beforeValue + v, beforeValue + text);
    ContinuesAfter(afterKey, [COLON] + (beforeValue + v), [COLON] + (beforeValue + text));
    ContinuesAfter(StringText(items), afterKey + ([COLON] + (beforeValue + v)),
                   afterKey + ([COLON] + (beforeValue + text)));
    ContinuesAfter(gap, StringText(items) + (afterKey + ([COLON] + (beforeValue + v))),
                   StringText(items) + (afterKey + ([COLON] + (beforeValue + text))));
  }

  // ---------- whole texts ----------

  /**
   * Whenever a number, a character or a repeated name is reported, some text of the grammar that begins
   * like the input and then only closes has that as its first fault.
   */
  lemma FaultIsReal(data: ByteString, l: Limits, c: FailureClass) returns (d: Document)
    requires ParseText(data, l) == Err(c) && IsTreeFault(c)
    ensures ShapedDocument(d) && TreeFault(d.root) == Fail(c) && Continues(data, DocumentText(d))
  {
    hide ValidUtf8, ParseValue, SkipSpace, TreeFault, Text, Shaped, Continues;
    var gap := SkippedIsSpace(data);
    var s := SkipSpace(data);
    var j := ValueBlame(s, 0, 0, l, c);
    d := Document(gap, j, []);
    ContinuesAfter(gap, s, Text(j));
    assert Text(j) + [] == Text(j);
  }
}
