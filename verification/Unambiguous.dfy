/** The grammar is unambiguous: a text has at most one syntax tree, down to its escapes and its space. */
module Unambiguous {
  import opened Bytes
  import opened Unicode
  import opened Tokens
  import opened Strings
  import opened Numbers
  import opened Grammar
  import opened Parsing

  // ---------- gaps, strings, numbers ----------

  lemma GapUnique(a: ByteString, s: ByteString, b: ByteString, t: ByteString)
    requires AllSpace(a) && (s == [] || !IsSpace(s[0]))
    requires AllSpace(b) && (t == [] || !IsSpace(t[0]))
    requires a + s == b + t
    ensures a == b && s == t
  {
    hide SkipSpace;
    SkipAllSpace(a, s);
    SkipAllSpace(b, t);
    SamePrefix(a, b, s);
  }

  lemma SamePrefix(a: ByteString, b: ByteString, s: ByteString)
    requires a + s == b + s
    ensures a == b
  {
    assert |a| == |b|;
    assert (a + s)[..|a|] == a && (b + s)[..|b|] == b;
  }

  lemma SameSuffix(a: ByteString, s: ByteString, t: ByteString)
    requires a + s == a + t
    ensures s == t
  {
    assert (a + s)[|a|..] == s && (a + t)[|a|..] == t;
  }

  lemma ItemUnique(i: Item, r: ByteString, k: Item, q: ByteString)
    requires WellFormedItem(i) && WellFormedItem(k) && ItemText(i) + r == ItemText(k) + q
    ensures i == k && r == q
  {
    hide EncodeRune, DecodeRune, Hex4Value, IsHexDigit, IsNoncharacter;
    var s := ItemText(i) + r;
    ItemHead(i, r);
    ItemHead(k, q);
    if i.Raw? {
      DecodeEncoded(i.rune, r);
      DecodeEncoded(k.rune, q);
    } else {
      EscapeShape(i, r);
      EscapeShape(k, q);
    }
    SameSuffix(ItemText(i), r, q);
  }

  lemma ItemHead(i: Item, r: ByteString)
    requires WellFormedItem(i)
    ensures var s := ItemText(i) + r; s != [] && s[0] != QUOTE && (s[0] == BACKSLASH <==> !i.Raw?)
  {
    hide EncodeRune;
    if i.Raw? {
      RawHead(i.rune, r);
    }
  }

  /** The parts of an escape are at fixed places. */
  lemma EscapeShape(i: Item, r: ByteString)
    requires WellFormedItem(i) && !i.Raw?
    ensures var s := ItemText(i) + r;
      match i
      case Short(b) => |s| >= 2 && s[1] == b != 0x75
      case Hex(h) => |s| >= 6 && s[1] == 0x75 && s[2..6] == h && !IsSurrogate(Hex4Value(h))
      case Pair(h, l) =>
        |s| >= 12 && s[1] == 0x75 && s[2..6] == h && IsHex4(h) && IsSurrogate(Hex4Value(h)) && s[8..12] == l
      case Raw(_) => true
  {
    hide Hex4Value, IsHexDigit, IsNoncharacter;
  }

  lemma {:induction false} ItemsUnique(a: seq<Item>, r: ByteString, b: seq<Item>, q: ByteString)
    requires WellFormedItems(a) && WellFormedItems(b)
    requires ItemsText(a) + ([QUOTE] + r) == ItemsText(b) + ([QUOTE] + q)
    ensures a == b && r == q
  {
    hide ItemText, WellFormedItem;
    ItemsShape(a, r);
    ItemsShape(b, q);
    if a == [] || b == [] {
      assert a == [] == b;
      SameSuffix([QUOTE], r, q);
    } else {
      ItemUnique(a[0], ItemsText(a[1..]) + ([QUOTE] + r), b[0], ItemsText(b[1..]) + ([QUOTE] + q));
      ItemsUnique(a[1..], r, b[1..], q);
      assert a == [a[0]] + a[1..] && b == [b[0]] + b[1..];
    }
  }

  /** A literal goes on with its first item, or ends at the quote. */
  lemma ItemsShape(a: seq<Item>, r: ByteString)
    requires WellFormedItems(a)
    ensures var s := ItemsText(a) + ([QUOTE] + r);
      && s != [] && (s[0] == QUOTE <==> a == [])
      && s == if a == [] then [QUOTE] + r else ItemText(a[0]) + (ItemsText(a[1..]) + ([QUOTE] + r))
  {
    hide ItemText, WellFormedItem;
    if a == [] {
      assert [] + ([QUOTE] + r) == [QUOTE] + r;
    } else {
      AppendAssociative(ItemText(a[0]), ItemsText(a[1..]), [QUOTE] + r);
      ItemHead(a[0], ItemsText(a[1..]) + ([QUOTE] + r));
    }
  }

  lemma StringUnique(a: seq<Item>, r: ByteString, b: seq<Item>, q: ByteString)
    requires WellFormedItems(a) && WellFormedItems(b) && StringText(a) + r == StringText(b) + q
    ensures a == b && r == q
  {
    hide ItemsText, WellFormedItems;
    StringShape(a, r);
    StringShape(b, q);
    SameSuffix([QUOTE], ItemsText(a) + ([QUOTE] + r), ItemsText(b) + ([QUOTE] + q));
    ItemsUnique(a, r, b, q);
  }

  lemma StringShape(a: seq<Item>, r: ByteString)
    requires WellFormedItems(a)
    ensures StringText(a) + r == [QUOTE] + (ItemsText(a) + ([QUOTE] + r))
  {
    hide ItemsText, WellFormedItems;
    AppendAssociative([QUOTE], ItemsText(a) + [QUOTE], r);
    AppendAssociative(ItemsText(a), [QUOTE], r);
  }

  lemma TokenUnique(t: Token, r: ByteString, u: Token, q: ByteString)
    requires WellFormed(t) && WellFormed(u) && Stops(r) && Stops(q) && TokenText(t) + r == TokenText(u) + q
    ensures t == u && r == q
  {
    hide TokenText, ReadToken, WellFormed, Stops;
    TokenComplete(t, r, |TokenText(t)|);
    TokenComplete(u, q, |TokenText(u)|);
  }

  // ---------- values ----------

  lemma {:induction false} ValueUnique(j: Json, r: ByteString, k: Json, q: ByteString)
    requires WellFormedJson(j) && WellFormedJson(k) && Follows(r) && Follows(q)
    requires Text(j) + r == Text(k) + q
    ensures j == k && r == q
    decreases j, 1
  {
    hide TokenText, StringText, ElemsText, MembersText, WellFormed, WellFormedItems, AcceptedNumber;
    hide WellFormedElems, WellFormedMembers;
    TextHead(j, r);
    TextHead(k, q);
    match j
    case JNumber(t) => TokenUnique(t, r, k.token, q);
    case JString(items) => StringUnique(items, r, k.items, q);
    case JEmptyArray(_) => ArrayUnique(j, r, k, q);
    case JArray(_) => ArrayUnique(j, r, k, q);
    case JEmptyObject(_) => ObjectUnique(j, r, k, q);
    case JObject(_) => ObjectUnique(j, r, k, q);
    case JNull => SameSuffix(NULL_TEXT, r, q);
    case JTrue => LiteralUnique(j, r, k, q);
    case JFalse => LiteralUnique(j, r, k, q);
  }

  lemma LiteralUnique(j: Json, r: ByteString, k: Json, q: ByteString)
    requires (j.JTrue? || j.JFalse?) && (k.JTrue? || k.JFalse?) && Text(j) + r == Text(k) + q
    ensures j == k && r == q
  {
    assert (Text(j) + r)[0] == Text(j)[0] && (Text(k) + q)[0] == Text(k)[0];
    SameSuffix(Text(j), r, q);
  }

  /** The text of an array: a gap or elements between the brackets. */
  lemma ArrayShape(j: Json, r: ByteString)
    requires WellFormedJson(j) && (j.JEmptyArray? || j.JArray?)
    ensures var inner := if j.JArray? then ElemsText(j.elems) else j.gap;
      Text(j) + r == [LEFT_BRACKET] + (inner + ([RIGHT_BRACKET] + r))
  {
    hide ElemsText, WellFormedElems;
    var inner := if j.JArray? then ElemsText(j.elems) else j.gap;
    AppendAssociative([LEFT_BRACKET], inner + [RIGHT_BRACKET], r);
    AppendAssociative(inner, [RIGHT_BRACKET], r);
  }

  lemma ObjectShape(j: Json, r: ByteString)
    requires WellFormedJson(j) && (j.JEmptyObject? || j.JObject?)
    ensures var inner := if j.JObject? then MembersText(j.members) else j.gap;
      Text(j) + r == [LEFT_BRACE] + (inner + ([RIGHT_BRACE] + r))
  {
    hide MembersText, WellFormedMembers;
    var inner := if j.JObject? then MembersText(j.members) else j.gap;
    AppendAssociative([LEFT_BRACE], inner + [RIGHT_BRACE], r);
    AppendAssociative(inner, [RIGHT_BRACE], r);
  }

  lemma {:induction false} ArrayUnique(j: Json, r: ByteString, k: Json, q: ByteString)
    requires WellFormedJson(j) && WellFormedJson(k) && Text(j) + r == Text(k) + q
    requires (j.JEmptyArray? || j.JArray?) && (k.JEmptyArray? || k.JArray?)
    ensures j == k && r == q
    decreases j, 0
  {
    hide Text, ElemsText, WellFormedElems, SkipSpace;
    var close, end := [RIGHT_BRACKET] + r, [RIGHT_BRACKET] + q;
    ArrayShape(j, r);
    ArrayShape(k, q);
    var inner := if j.JArray? then ElemsText(j.elems) else j.gap;
    var other := if k.JArray? then ElemsText(k.elems) else k.gap;
    SameSuffix([LEFT_BRACKET], inner + close, other + end);
    if j.JArray? {
      ElemsHead(j.elems, close);
    } else {
      SkipAllSpace(j.gap, close);
    }
    if k.JArray? {
      ElemsHead(k.elems, end);
    } else {
      SkipAllSpace(k.gap, end);
    }
    if j.JArray? {
      ElemsUnique(j.elems, r, k.elems, q);
    } else {
      GapUnique(j.gap, close, k.gap, end);
      SameSuffix([RIGHT_BRACKET], r, q);
    }
  }

  lemma {:induction false} ElemsUnique(e: Elems, r: ByteString, f: Elems, q: ByteString)
    requires WellFormedElems(e) && WellFormedElems(f)
    requires ElemsText(e) + ([RIGHT_BRACKET] + r) == ElemsText(f) + ([RIGHT_BRACKET] + q)
    ensures e == f && r == q
    decreases e, 0
  {
    hide Text, ElemsText, WellFormedJson;
    var close, end := [RIGHT_BRACKET] + r, [RIGHT_BRACKET] + q;
    var more, other := ElemsMore(e, close), ElemsMore(f, end);
    ElemsTextShape(e, close);
    ElemsTextShape(f, end);
    TextHead(e.value, e.after + more);
    TextHead(f.value, f.after + other);
    GapUnique(e.before, Text(e.value) + (e.after + more), f.before, Text(f.value) + (f.after + other));
    GapFollows(e.after, more);
    GapFollows(f.after, other);
    ValueUnique(e.value, e.after + more, f.value, f.after + other);
    GapUnique(e.after, more, f.after, other);
    assert more[0] == other[0];
    if e.MoreElems? {
      SameSuffix([COMMA], ElemsText(e.rest) + close, ElemsText(f.rest) + end);
      ElemsUnique(e.rest, r, f.rest, q);
    } else {
      SameSuffix([RIGHT_BRACKET], r, q);
    }
  }

  lemma {:induction false} ObjectUnique(j: Json, r: ByteString, k: Json, q: ByteString)
    requires WellFormedJson(j) && WellFormedJson(k) && Text(j) + r == Text(k) + q
    requires (j.JEmptyObject? || j.JObject?) && (k.JEmptyObject? || k.JObject?)
    ensures j == k && r == q
    decreases j, 0
  {
    hide Text, MembersText, WellFormedMembers, SkipSpace;
    var close, end := [RIGHT_BRACE] + r, [RIGHT_BRACE] + q;
    ObjectShape(j, r);
    ObjectShape(k, q);
    var inner := if j.JObject? then MembersText(j.members) else j.gap;
    var other := if k.JObject? then MembersText(k.members) else k.gap;
    SameSuffix([LEFT_BRACE], inner + close, other + end);
    if j.JObject? {
      MembersHead(j.members, close);
    } else {
      SkipAllSpace(j.gap, close);
    }
    if k.JObject? {
      MembersHead(k.members, end);
    } else {
      SkipAllSpace(k.gap, end);
    }
    if j.JObject? {
      MembersUnique(j.members, r, k.members, q);
    } else {
      GapUnique(j.gap, close, k.gap, end);
      SameSuffix([RIGHT_BRACE], r, q);
    }
  }

  /** The text of a member list from the space before its first value on. */
  ghost function AfterColon(m: Members, close: ByteString): ByteString
    requires WellFormedMembers(m)
  {
    m.beforeValue + (Text(m.value) + (m.after + MembersMore(m, close)))
  }

  lemma NameUnique(m: Members, close: ByteString, o: Members, end: ByteString)
    requires WellFormedMembers(m) && WellFormedMembers(o) && MembersText(m) + close == MembersText(o) + end
    ensures m.before == o.before && m.key == o.key && m.afterKey == o.afterKey
    ensures AfterColon(m, close) == AfterColon(o, end)
  {
    hide MembersText, AfterColon, StringText, WellFormedJson, WellFormedItems;
    var u, v := [COLON] + AfterColon(m, close), [COLON] + AfterColon(o, end);
    NameShape(m, close);
    NameShape(o, end);
    QuoteHead(m.key, m.afterKey + u);
    QuoteHead(o.key, o.afterKey + v);
    GapUnique(m.before, StringText(m.key) + (m.afterKey + u), o.before, StringText(o.key) + (o.afterKey + v));
    StringUnique(m.key, m.afterKey + u, o.key, o.afterKey + v);
    GapUnique(m.afterKey, u, o.afterKey, v);
    SameSuffix([COLON], AfterColon(m, close), AfterColon(o, end));
  }

  lemma NameShape(m: Members, close: ByteString)
    requires WellFormedMembers(m)
    ensures MembersText(m) + close ==
      m.before + (StringText(m.key) + (m.afterKey + ([COLON] + AfterColon(m, close))))
  {
    hide MembersText, StringText, Text, WellFormedJson, WellFormedItems;
    MembersTextShape(m, close);
  }

  lemma QuoteHead(items: seq<Item>, tail: ByteString)
    requires WellFormedItems(items)
    ensures StringText(items) + tail != [] && (StringText(items) + tail)[0] == QUOTE
  {
    hide ItemsText, WellFormedItems;
  }

  lemma {:induction false} MembersUnique(m: Members, r: ByteString, o: Members, q: ByteString)
    requires WellFormedMembers(m) && WellFormedMembers(o)
    requires MembersText(m) + ([RIGHT_BRACE] + r) == MembersText(o) + ([RIGHT_BRACE] + q)
    ensures m == o && r == q
    decreases m, 0
  {
    hide Text, MembersText, WellFormedJson, WellFormedItems;
    var close, end := [RIGHT_BRACE] + r, [RIGHT_BRACE] + q;
    var more, other := MembersMore(m, close), MembersMore(o, end);
    NameUnique(m, close, o, end);
    TextHead(m.value, m.after + more);
    TextHead(o.value, o.after + other);
    GapUnique(m.beforeValue, Text(m.value) + (m.after + more), o.beforeValue, Text(o.value) + (o.after + other));
    GapFollows(m.after, more);
    GapFollows(o.after, other);
    ValueUnique(m.value, m.after + more, o.value, o.after + other);
    GapUnique(m.after, more, o.after, other);
    assert more[0] == other[0];
    if m.MoreMembers? {
      SameSuffix([COMMA], MembersText(m.rest) + close, MembersText(o.rest) + end);
      MembersUnique(m.rest, r, o.rest, q);
    } else {
      SameSuffix([RIGHT_BRACE], r, q);
    }
  }

  // ---------- documents ----------

  /** A JSON text has one derivation. */
  lemma DerivationUnique(d: Document, e: Document)
    requires WellFormedDocument(d) && WellFormedDocument(e) && DocumentText(d) == DocumentText(e)
    ensures d == e
  {
    hide Text, WellFormedJson;
    TextHead(d.root, d.after);
    TextHead(e.root, e.after);
    GapUnique(d.before, Text(d.root) + d.after, e.before, Text(e.root) + e.after);
    ValueUnique(d.root, d.after, e.root, e.after);
  }
}
