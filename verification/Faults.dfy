/**
 * What is reported for every text of the grammar: the first fault in the order of the text. Faults are
 * numbers that are no doubles, characters that strings may not hold, and repeated names.
 */
module Faults {
  import opened Bytes
  import opened Unicode
  import opened Tokens
  import opened Strings
  import opened Numbers
  import opened Values
  import opened Grammar
  import opened Parsing
  import opened Tightening

  // ---------- the first fault ----------

  ghost function ItemFault(i: Item): Outcome
    requires ShapedItem(i)
  {
    match i
    case Raw(r) => if IsNoncharacter(r) then Fail(Noncharacter) else Pass
    case Short(_) => Pass
    case Hex(h) =>
      if IsSurrogate(Hex4Value(h)) then Fail(LoneSurrogate)
      else if IsNoncharacter(Hex4Value(h)) then Fail(Noncharacter)
      else Pass
    case Pair(h, l) => if IsNoncharacter(DecodePair(Hex4Value(h), Hex4Value(l))) then Fail(Noncharacter) else Pass
  }

  ghost function ItemsFault(items: seq<Item>): Outcome
    requires ShapedItems(items)
  {
    if items == [] then Pass
    else if ItemFault(items[0]).Fail? then ItemFault(items[0])
    else ItemsFault(items[1..])
  }

  ghost function TokenFault(t: Token): Outcome {
    match NumberOutcome(t)
    case Err(e) => Fail(e)
    case Ok(_) => Pass
  }

  ghost function TreeFault(j: Json): Outcome
    requires Shaped(j)
  {
    match j
    case JNumber(t) => TokenFault(t)
    case JString(items) => ItemsFault(items)
    case JArray(elems) => ElemsFault(elems)
    case JObject(members) => MembersFault(members, [])
    case _ => Pass
  }

  ghost function ElemsFault(e: Elems): Outcome
    requires ShapedElems(e)
  {
    if TreeFault(e.value).Fail? then TreeFault(e.value)
    else if e.MoreElems? then ElemsFault(e.rest)
    else Pass
  }

  /** `names` are those of the members before. */
  ghost function MembersFault(m: Members, names: seq<ByteString>): Outcome
    requires ShapedMembers(m)
  {
    if ItemsFault(m.key).Fail? then ItemsFault(m.key)
    else if DenoteString(m.key) in names then Fail(DuplicateKey)
    else if TreeFault(m.value).Fail? then TreeFault(m.value)
    else if m.MoreMembers? then MembersFault(m.rest, names + [DenoteString(m.key)])
    else Pass
  }

  // ---------- well-formed is without fault ----------

  lemma ItemFaultless(i: Item)
    requires ShapedItem(i)
    ensures ItemFault(i).Pass? <==> WellFormedItem(i)
  {
    hide IsNoncharacter, Hex4Value, IsHex4;
  }

  lemma {:induction false} ItemsFaultless(items: seq<Item>)
    requires ShapedItems(items)
    ensures ItemsFault(items).Pass? <==> WellFormedItems(items)
  {
    hide ItemFault, WellFormedItem, ShapedItem;
    if items != [] {
      ItemFaultless(items[0]);
      ItemsFaultless(items[1..]);
      assert items == [items[0]] + items[1..];
    }
  }

  lemma TokenFaultless(t: Token)
    ensures TokenFault(t).Pass? <==> AcceptedNumber(t)
  {
    hide AbsoluteValue;
  }

  lemma {:induction false} Faultless(j: Json)
    requires Shaped(j)
    ensures TreeFault(j).Pass? <==> WellFormedJson(j)
    decreases j, 1
  {
    hide TokenFault, AcceptedNumber, ItemsFault, WellFormedItems, ElemsFault, MembersFault, Distinct, Keys;
    match j
    case JNumber(t) => TokenFaultless(t);
    case JString(items) => ItemsFaultless(items);
    case JArray(e) => ElemsFaultless(e);
    case JObject(m) =>
      NoNames();
      MembersFaultless(m, []);
      assert [] + Keys(DenoteMembers(m)) == Keys(DenoteMembers(m));
    case _ =>
  }

  lemma NoNames()
    ensures Distinct([])
  {
  }

  lemma {:induction false} ElemsFaultless(e: Elems)
    requires ShapedElems(e)
    ensures ElemsFault(e).Pass? <==> WellFormedElems(e)
    decreases e, 0
  {
    hide TreeFault, WellFormedJson;
    Faultless(e.value);
    if e.MoreElems? {
      ElemsFaultless(e.rest);
    }
  }

  lemma {:induction false} MembersFaultless(m: Members, names: seq<ByteString>)
    requires ShapedMembers(m) && Distinct(names)
    ensures MembersFault(m, names).Pass? <==>
      WellFormedMembers(m) && Distinct(names + Keys(DenoteMembers(m)))
    decreases m, 0
  {
    hide TreeFault, WellFormedJson, ItemsFault, WellFormedItems, DenoteString, Distinct, Keys, DenoteMembers;
    ItemsFaultless(m.key);
    Faultless(m.value);
    var k := DenoteString(m.key);
    KeysStep(m);
    var later := if m.MoreMembers? then Keys(DenoteMembers(m.rest)) else [];
    DistinctSteps(names, k, later);
    if m.MoreMembers? && k !in names {
      MembersFaultless(m.rest, names + [k]);
    }
  }

  lemma KeysStep(m: Members)
    ensures Keys(DenoteMembers(m)) ==
      [DenoteString(m.key)] + if m.MoreMembers? then Keys(DenoteMembers(m.rest)) else []
  {
    hide DenoteString, Denote;
  }

  lemma DistinctSteps(names: seq<ByteString>, k: ByteString, later: seq<ByteString>)
    requires Distinct(names)
    ensures names + ([k] + later) == (names + [k]) + later
    ensures Distinct(names + [k]) <==> k !in names
    ensures Distinct(names + ([k] + later)) ==> Distinct(names + [k])
    ensures later == [] ==> names + ([k] + later) == names + [k]
  {
    var some, all := names + [k], names + ([k] + later);
    assert all == some + later;
    if k !in names {
      forall i, j | 0 <= i < j < |some| ensures some[i] != some[j] {
      }
    }
    if i :| 0 <= i < |names| && names[i] == k {
      assert !Distinct(some) by {
        assert some[i] == some[|names|];
      }
    }
    if Distinct(all) {
      forall i, j | 0 <= i < j < |some| ensures some[i] != some[j] {
        assert all[i] == some[i] && all[j] == some[j];
      }
    }
  }

  // ---------- literals with a fault ----------

  /** After the escape of a high surrogate, no low surrogate is escaped. */
  ghost predicate NoLowNext(t: ByteString) {
    || |t| < 2 || t[0] != BACKSLASH || t[1] != 0x75
    || (|t| >= 6 && IsHex4(t[2..6]) && !IsLowSurrogate(Hex4Value(t[2..6])))
  }

  lemma AfterItem(items: seq<Item>, rest: ByteString)
    requires ShapedItems(items)
    requires items != [] && items[0].Hex? ==> !IsLowSurrogate(Hex4Value(items[0].digits))
    ensures NoLowNext(ItemsText(items) + ([QUOTE] + rest))
  {
    hide EncodeRune, Hex4Value, IsHexDigit, IsNoncharacter;
    var t := ItemsText(items) + ([QUOTE] + rest);
    if items == [] {
      assert t == [QUOTE] + rest;
    } else {
      var more := ItemsText(items[1..]) + ([QUOTE] + rest);
      AppendAssociative(ItemText(items[0]), ItemsText(items[1..]), [QUOTE] + rest);
      match items[0]
      case Raw(r) => RawHead(r, more);
      case Short(b) => assert t[1] == b;
      case Hex(h) => assert t[2..6] == h;
      case Pair(h, l) => assert t[2..6] == h;
    }
  }

  /** A faulty character is reported, whatever has been read. */
  lemma ItemFaultReported(i: Item, tail: ByteString, buf: ByteString, maxBytes: nat)
    requires ShapedItem(i) && ItemFault(i).Fail?
    requires i.Hex? && IsHighSurrogate(Hex4Value(i.digits)) ==> NoLowNext(tail)
    ensures General(ItemText(i) + tail, buf, maxBytes) == Err(ItemFault(i).failure)
  {
    hide General, GeneralTurn;
    var s := ItemText(i) + tail;
    GeneralDefinition(s, buf, maxBytes);
    FaultyTurn(i, tail, buf, maxBytes);
  }

  lemma FaultyTurn(i: Item, tail: ByteString, buf: ByteString, maxBytes: nat)
    requires ShapedItem(i) && ItemFault(i).Fail?
    requires i.Hex? && IsHighSurrogate(Hex4Value(i.digits)) ==> NoLowNext(tail)
    ensures GeneralTurn(ItemText(i) + tail, buf, maxBytes) == Stop(Err(ItemFault(i).failure))
  {
    hide Escape, DecodeRune, EncodeRune, IsNoncharacter, Hex4Value, IsHex4, NoLowNext, DecodePair, CheckRune;
    var s := ItemText(i) + tail;
    if i.Raw? {
      RawHead(i.rune, tail);
      DecodeEncoded(i.rune, tail);
      BadRaw(i.rune);
    } else {
      EscapedFault(i, tail);
      assert s[0] == BACKSLASH && s[1..] == ItemText(i)[1..] + tail;
    }
  }

  /** A faulty escape fails to scan, or scans to a character that is refused. */
  lemma EscapedFault(i: Item, tail: ByteString)
    requires ShapedItem(i) && !i.Raw? && ItemFault(i).Fail?
    requires i.Hex? && IsHighSurrogate(Hex4Value(i.digits)) ==> NoLowNext(tail)
    ensures var e := Escape(ItemText(i)[1..] + tail);
      if e.Err? then e.failure == ItemFault(i).failure
      else CheckRune(e.value.rune) == Err(ItemFault(i).failure)
  {
    hide Escape, EncodeRune, IsNoncharacter, Hex4Value, IsHex4, UnicodeEscape, NoLowNext, DecodePair;
    match i
    case Short(_) =>
    case Hex(h) =>
      AfterMark(h, tail);
      if IsSurrogate(Hex4Value(h)) {
        LoneEscape(h, tail);
      } else {
        HexComplete(h, tail);
      }
    case Pair(h, l) =>
      AfterMark(h + ([BACKSLASH, 0x75] + l), tail);
      assert h + ([BACKSLASH, 0x75] + l) + tail == h + ([BACKSLASH, 0x75] + (l + tail));
      PairComplete(h, l, tail);
  }

  lemma BadRaw(r: int)
    requires Scalar(r) && IsNoncharacter(r)
    ensures CheckRune(r) == Err(Noncharacter) && r != RUNE_ERROR
  {
  }

  lemma LoneEscape(h: ByteString, tail: ByteString)
    requires IsHex4(h) && IsSurrogate(Hex4Value(h)) && (IsHighSurrogate(Hex4Value(h)) ==> NoLowNext(tail))
    ensures UnicodeEscape(h + tail) == Err(LoneSurrogate)
  {
    hide Hex4Value, IsHex4;
    ReadHex4Complete(h, tail);
    if |tail| >= 6 {
      assert tail[2..][..4] == tail[2..6];
    }
  }

  lemma {:induction false} GeneralFault(items: seq<Item>, rest: ByteString, buf: ByteString, maxBytes: nat)
    requires ShapedItems(items) && ItemsFault(items).Fail? && |buf| + |DenoteString(items)| <= maxBytes
    ensures General(ItemsText(items) + ([QUOTE] + rest), buf, maxBytes) == Err(ItemsFault(items).failure)
    decreases |items|
  {
    hide General, ItemText, EncodeRune, ItemRune, ItemFault, WellFormedItem;
    var tail := ItemsText(items[1..]) + ([QUOTE] + rest);
    AppendAssociative(ItemText(items[0]), ItemsText(items[1..]), [QUOTE] + rest);
    ItemFaultless(items[0]);
    if ItemFault(items[0]).Fail? {
      FaultyHead(items, rest, buf, maxBytes);
    } else {
      GeneralStep(items[0], tail, buf, maxBytes);
      GeneralFault(items[1..], rest, buf + EncodeRune(ItemRune(items[0])), maxBytes);
    }
  }

  lemma FaultyHead(items: seq<Item>, rest: ByteString, buf: ByteString, maxBytes: nat)
    requires ShapedItems(items) && items != [] && ItemFault(items[0]).Fail?
    ensures General(ItemText(items[0]) + (ItemsText(items[1..]) + ([QUOTE] + rest)), buf, maxBytes)
         == Err(ItemFault(items[0]).failure)
  {
    hide General, ItemText, EncodeRune, IsNoncharacter, Hex4Value, IsHex4, ItemFault, NoLowNext;
    var i := items[0];
    if i.Hex? && IsHighSurrogate(Hex4Value(i.digits)) {
      assert |items| > 1 ==> !SplitPair(items[0], items[1]);
      AfterItem(items[1..], rest);
    }
    ItemFaultReported(i, ItemsText(items[1..]) + ([QUOTE] + rest), buf, maxBytes);
  }

  /** A literal with a fault, decoded within the bound up to it, is rejected for its first fault. */
  lemma StringFault(items: seq<Item>, rest: ByteString, maxBytes: nat)
    requires ShapedItems(items) && ItemsFault(items).Fail? && |DenoteString(items)| <= maxBytes
    ensures ScanString(StringText(items) + rest, maxBytes) == Err(ItemsFault(items).failure)
  {
    hide General, ItemsText, ShapedItems, DenoteString, ItemsFault;
    var t := ItemsText(items) + ([QUOTE] + rest);
    var s := StringText(items) + rest;
    assert s[0] == QUOTE && s[1..] == t;
    GeneralFault(items, rest, [], maxBytes);
    FaultIsNoBound(items);
    PlainRunStep(t, [], maxBytes);
    FastPathRefinesGeneral(t, maxBytes);
  }

  lemma {:induction false} FaultIsNoBound(items: seq<Item>)
    requires ShapedItems(items) && ItemsFault(items).Fail?
    ensures ItemsFault(items).failure == LoneSurrogate || ItemsFault(items).failure == Noncharacter
  {
    hide ShapedItem;
    if ItemFault(items[0]).Pass? {
      FaultIsNoBound(items[1..]);
    }
  }

  // ---------- values with a fault ----------

  lemma {:induction false} ValueFault(j: Json, rest: ByteString, depth: nat, count: nat, l: Limits)
    requires Shaped(j) && TreeFault(j).Fail? && Follows(rest)
    requires Fits(Denote(j), l) && TokensFit(j, l.maxNumberChars)
    requires depth + Nesting(Denote(j)) <= l.maxDepth && count + Nodes(Denote(j)) <= l.maxValues
    ensures ParseValue(Text(j) + rest, depth, count, l) == Err(TreeFault(j).failure)
    decreases j, 2
  {
    hide ScanString, ScanNumber, ParseElems, ParseMembers, TokenText, NumberOutcome, WellFormed, ShapedItems;
    hide StringText, DenoteString, ElemsText, MembersText, ShapedElems, ShapedMembers, ElemsFault, MembersFault;
    hide SkipSpace, DenoteElems, DenoteMembers, Keys, NodesAll, NodesMembers, NestingAll, NestingMembers;
    hide FitsAll, FitsMembers, TokensFitElems, TokensFitMembers, ItemsFault;
    TextHead(j, rest);
    match j
    case JNumber(t) => NumberComplete(t, rest, l.maxNumberChars);
    case JString(items) => StringFault(items, rest, l.maxStringBytes);
    case JArray(e) => ArrayFault(e, rest, depth, count, l);
    case JObject(m) => ObjectFault(m, rest, depth, count, l);
    case _ =>
  }

  lemma {:induction false} ArrayFault(e: Elems, rest: ByteString, depth: nat, count: nat, l: Limits)
    requires ShapedElems(e) && ElemsFault(e).Fail? && Follows(rest)
    requires var j := JArray(e); Fits(Denote(j), l) && TokensFit(j, l.maxNumberChars)
    requires var v := Denote(JArray(e)); depth + Nesting(v) <= l.maxDepth && count + Nodes(v) <= l.maxValues
    ensures ParseValue(Text(JArray(e)) + rest, depth, count, l) == Err(ElemsFault(e).failure)
    decreases e, 1
  {
    hide ParseElems, ElemsText, SkipSpace, DenoteElems, NodesAll, NestingAll, FitsAll, TokensFitElems;
    hide ShapedElems, ElemsFault;
    var close := [RIGHT_BRACKET] + rest;
    var t := ElemsText(e) + close;
    var s := Text(JArray(e)) + rest;
    assert s[0] == LEFT_BRACKET && s[1..] == t;
    ElemsHead(e, close);
    ElemsAfterSpace(t, depth + 1, count + 1, [], l);
    ElemsFaultReported(e, rest, depth + 1, count + 1, [], l);
  }

  lemma {:induction false} ElemsFaultReported(
    e: Elems, rest: ByteString, depth: nat, count: nat, elems: seq<Value>, l: Limits)
    requires ShapedElems(e) && ElemsFault(e).Fail?
    requires FitsAll(DenoteElems(e), l) && TokensFitElems(e, l.maxNumberChars)
    requires |elems| + |DenoteElems(e)| <= l.maxArrayElements
    requires depth + NestingAll(DenoteElems(e)) <= l.maxDepth
    requires count + NodesAll(DenoteElems(e)) <= l.maxValues
    ensures ParseElems(ElemsText(e) + ([RIGHT_BRACKET] + rest), depth, count, elems, l) == Err(ElemsFault(e).failure)
    decreases e, 0
  {
    hide ParseValue, ParseElems, Text, Nodes, Nesting, NodesAll, NestingAll, FitsAll, Fits, TreeFault, Shaped;
    hide Denote, DenoteElems, ElemsText, TokensFit, SkipSpace, WellFormedJson;
    ElemsMeasures(e, l);
    var close := [RIGHT_BRACKET] + rest;
    var tail := e.after + ElemsMore(e, close);
    var text, v := ElemsText(e) + close, Denote(e.value);
    GapFollows(e.after, ElemsMore(e, close));
    Faultless(e.value);
    if TreeFault(e.value).Fail? {
      ValueFault(e.value, tail, depth, count, l);
      ElemsTextShape(e, close);
      TextHead(e.value, tail);
      SkipAllSpace(e.before, Text(e.value) + tail);
      ElemsDefinition(text, depth, count, elems, l);
    } else {
      ValueComplete(e.value, tail, depth, count, l);
      ElemsTurn(e, close, depth, count, elems, l, count + Nodes(v));
      ElemsFaultReported(e.rest, rest, depth, count + Nodes(v), elems + [v], l);
    }
  }

  lemma {:induction false} ObjectFault(m: Members, rest: ByteString, depth: nat, count: nat, l: Limits)
    requires ShapedMembers(m) && MembersFault(m, []).Fail? && Follows(rest)
    requires var j := JObject(m); Fits(Denote(j), l) && TokensFit(j, l.maxNumberChars)
    requires var v := Denote(JObject(m)); depth + Nesting(v) <= l.maxDepth && count + Nodes(v) <= l.maxValues
    ensures ParseValue(Text(JObject(m)) + rest, depth, count, l) == Err(MembersFault(m, []).failure)
    decreases m, 1
  {
    hide ParseMembers, MembersText, SkipSpace, DenoteMembers, NodesMembers, NestingMembers, FitsMembers;
    hide ShapedMembers, MembersFault, TokensFitMembers;
    var close := [RIGHT_BRACE] + rest;
    var t := MembersText(m) + close;
    var s := Text(JObject(m)) + rest;
    assert s[0] == LEFT_BRACE && s[1..] == t;
    MembersHead(m, close);
    MembersAfterSpace(t, depth + 1, count + 1, [], l);
    NoKeys();
    MembersFaultReported(m, rest, depth + 1, count + 1, [], l);
  }

  lemma {:induction false} MembersFaultReported(
    m: Members, rest: ByteString, depth: nat, count: nat, members: seq<Entry<Value>>, l: Limits)
    requires ShapedMembers(m) && MembersFault(m, Keys(members)).Fail?
    requires FitsMembers(DenoteMembers(m), l) && TokensFitMembers(m, l.maxNumberChars)
    requires |members| + |DenoteMembers(m)| <= l.maxObjectMembers
    requires depth + NestingMembers(DenoteMembers(m)) <= l.maxDepth
    requires count + NodesMembers(DenoteMembers(m)) <= l.maxValues
    ensures ParseMembers(MembersText(m) + ([RIGHT_BRACE] + rest), depth, count, members, l)
         == Err(MembersFault(m, Keys(members)).failure)
    decreases m, 0
  {
    hide ParseValue, ParseMembers, Text, Nodes, Nesting, NodesMembers, NestingMembers, FitsMembers, Fits, TreeFault;
    hide Denote, DenoteMembers, DenoteString, MembersText, TokensFit, Shaped, WellFormedJson, ShapedItems, ItemsFault;
    hide ScanName, WellFormedItems, Keys, Denoted;
    MembersMeasures(m, l);
    var close := [RIGHT_BRACE] + rest;
    var tail := m.after + MembersMore(m, close);
    var k, v := DenoteString(m.key), Denote(m.value);
    GapFollows(m.after, MembersMore(m, close));
    ItemsFaultless(m.key);
    Faultless(m.value);
    NameOutcome(m, close, members, l);
    MembersDefinition(MembersText(m) + close, depth, count, members, l);
    if ItemsFault(m.key).Pass? && k !in Keys(members) {
      if TreeFault(m.value).Fail? {
        ValueFault(m.value, tail, depth, count, l);
        TextHead(m.value, tail);
        SkipAllSpace(m.beforeValue, Text(m.value) + tail);
      } else {
        ValueComplete(m.value, tail, depth, count, l);
        MembersTurn(m, close, depth, count, members, l, count + Nodes(v));
        KeysAppended(members, Entry(k, v));
        MembersFaultReported(m.rest, rest, depth, count + Nodes(v), members + [Entry(k, v)], l);
      }
    }
  }

  lemma KeysAppended(members: seq<Entry<Value>>, e: Entry<Value>)
    ensures Keys(members + [e]) == Keys(members) + [e.key]
  {
  }

  /** What reading the name of the next member gives. */
  lemma NameOutcome(m: Members, close: ByteString, members: seq<Entry<Value>>, l: Limits)
    requires ShapedMembers(m) && |DenoteString(m.key)| <= l.maxStringBytes
    ensures var afterColon := m.beforeValue + (Text(m.value) + (m.after + MembersMore(m, close)));
      ScanName(MembersText(m) + close, members, l) ==
        if ItemsFault(m.key).Fail? then Err(ItemsFault(m.key).failure)
        else if DenoteString(m.key) in Keys(members) then Err(DuplicateKey)
        else Ok(Scanned(DenoteString(m.key), afterColon))
  {
    hide Text, MembersText, SkipSpace, ScanString, ItemsText, DenoteString, Denoted, Shaped, ShapedItems, Keys;
    hide ItemsFault, WellFormedItems;
    var afterColon := m.beforeValue + (Text(m.value) + (m.after + MembersMore(m, close)));
    var afterKey := m.afterKey + ([COLON] + afterColon);
    MembersTextShape(m, close);
    SkipAllSpace(m.before, StringText(m.key) + afterKey);
    ItemsFaultless(m.key);
    if ItemsFault(m.key).Fail? {
      StringFault(m.key, afterKey, l.maxStringBytes);
    } else {
      StringComplete(m.key, afterKey, l.maxStringBytes);
      SkipAllSpace(m.afterKey, [COLON] + afterColon);
      assert ([COLON] + afterColon)[1..] == afterColon;
    }
  }

  // ---------- documents ----------

  /** The outcome that a text of the grammar deserves. */
  ghost function Deserved(d: Document): Result<Value>
    requires ShapedDocument(d)
  {
    match TreeFault(d.root)
    case Fail(c) => Err(c)
    case Pass => Ok(Denote(d.root))
  }

  /** Every text of the grammar within the bounds has the outcome of its tree, failure class included. */
  lemma OutcomeExact(d: Document, l: Limits)
    requires ShapedDocument(d) && |DocumentText(d)| <= l.maxInputSize && DocumentFits(d, l)
    ensures ParseText(DocumentText(d), l) == Deserved(d)
  {
    hide ValidUtf8, Text, ParseValue, SkipSpace, Nodes, Nesting, Fits, TreeFault, Shaped, WellFormedJson, TokensFit;
    hide Denote;
    Faultless(d.root);
    if TreeFault(d.root).Pass? {
      DerivedIsParsed(d, DocumentText(d), l, Denote(d.root));
    } else {
      DocumentIsUtf8(d);
      TextHead(d.root, d.after);
      SkipAllSpace(d.before, Text(d.root) + d.after);
      SpaceFollows(d.after);
      ValueFault(d.root, d.after, 0, 0, l);
    }
  }

  lemma SpaceFollows(gap: ByteString)
    requires AllSpace(gap)
    ensures Follows(gap)
  {
  }

  /** Under any bounds, within them or not, a text of the grammar has that outcome or exceeds a bound. */
  lemma OutcomeAlways(d: Document, l: Limits)
    requires ShapedDocument(d)
    ensures ParseText(DocumentText(d), l) == Deserved(d) || ParseText(DocumentText(d), l) == Err(BoundExceeded)
  {
    hide ParseText, DocumentText, DocumentFits, Deserved, ShapedDocument;
    var n := DocumentFitsSome(d);
    var w := Widened(l, n);
    OutcomeExact(d, w);
    TextCut(DocumentText(d), l, w);
  }

  ghost predicate IsTreeFault(c: FailureClass) {
    || c == NumberOverflow || c == NumberNegZero || c == NumberUnderflow
    || c == LoneSurrogate || c == Noncharacter || c == DuplicateKey
  }

  lemma {:induction false} FaultClasses(j: Json)
    requires Shaped(j)
    ensures TreeFault(j).Fail? ==> IsTreeFault(TreeFault(j).failure)
    decreases j, 1
  {
    hide ItemsFault, ElemsFault, MembersFault, AbsoluteValue;
    match j
    case JString(items) => StringFaultClasses(items);
    case JArray(e) => ElemsFaultClasses(e);
    case JObject(m) => MembersFaultClasses(m, []);
    case _ =>
  }

  lemma StringFaultClasses(items: seq<Item>)
    requires ShapedItems(items)
    ensures ItemsFault(items).Fail? ==> IsTreeFault(ItemsFault(items).failure)
  {
    hide ItemsFault;
    if ItemsFault(items).Fail? {
      FaultIsNoBound(items);
    }
  }

  lemma {:induction false} ElemsFaultClasses(e: Elems)
    requires ShapedElems(e)
    ensures ElemsFault(e).Fail? ==> IsTreeFault(ElemsFault(e).failure)
    decreases e, 0
  {
    hide TreeFault, Shaped;
    FaultClasses(e.value);
    if e.MoreElems? {
      ElemsFaultClasses(e.rest);
    }
  }

  lemma {:induction false} MembersFaultClasses(m: Members, names: seq<ByteString>)
    requires ShapedMembers(m)
    ensures MembersFault(m, names).Fail? ==> IsTreeFault(MembersFault(m, names).failure)
    decreases m, 0
  {
    hide TreeFault, Shaped, ItemsFault, ShapedItems, DenoteString;
    StringFaultClasses(m.key);
    FaultClasses(m.value);
    if m.MoreMembers? {
      MembersFaultClasses(m.rest, names + [DenoteString(m.key)]);
    }
  }

  /** A grammar failure or an encoding failure is never reported for a text of the grammar. */
  lemma GrammarFailuresAreReal(data: ByteString, l: Limits)
    requires ParseText(data, l) == Err(InvalidGrammar) || ParseText(data, l) == Err(InvalidUtf8)
    ensures !exists d :: ShapedDocument(d) && DocumentText(d) == data
  {
    hide ParseText, TreeFault, DocumentText, Shaped;
    forall d | ShapedDocument(d) ensures DocumentText(d) != data {
      OutcomeAlways(d, l);
      FaultClasses(d.root);
    }
  }

  // ---------- repeated names ----------

  /** Well-formed in everything but the distinctness of names. */
  ghost predicate AllButNames(j: Json) {
    match j
    case JNumber(t) => AcceptedNumber(t)
    case JString(items) => WellFormedItems(items)
    case JArray(elems) => AllButNamesElems(elems)
    case JObject(members) => AllButNamesMembers(members)
    case _ => true
  }

  ghost predicate AllButNamesElems(e: Elems) {
    AllButNames(e.value) && (e.MoreElems? ==> AllButNamesElems(e.rest))
  }

  ghost predicate AllButNamesMembers(m: Members) {
    WellFormedItems(m.key) && AllButNames(m.value) && (m.MoreMembers? ==> AllButNamesMembers(m.rest))
  }

  /** In every object, no two names denote one string. */
  ghost predicate NamesDistinct(j: Json) {
    match j
    case JArray(elems) => NamesDistinctElems(elems)
    case JObject(members) => Distinct(Keys(DenoteMembers(members))) && NamesDistinctMembers(members)
    case _ => true
  }

  ghost predicate NamesDistinctElems(e: Elems) {
    NamesDistinct(e.value) && (e.MoreElems? ==> NamesDistinctElems(e.rest))
  }

  ghost predicate NamesDistinctMembers(m: Members) {
    NamesDistinct(m.value) && (m.MoreMembers? ==> NamesDistinctMembers(m.rest))
  }

  ghost function NamesVerdict(distinct: bool): Outcome {
    if distinct then Pass else Fail(DuplicateKey)
  }

  lemma {:induction false} OnlyNames(j: Json)
    requires Shaped(j) && AllButNames(j)
    ensures TreeFault(j) == NamesVerdict(NamesDistinct(j))
    decreases j, 1
  {
    hide ItemsFault, WellFormedItems, ElemsFault, MembersFault, AcceptedNumber, TokenFault, Distinct, Keys;
    match j
    case JNumber(t) => TokenFaultless(t);
    case JString(items) => ItemsFaultless(items);
    case JArray(e) => OnlyNamesElems(e);
    case JObject(m) =>
      NoNames();
      OnlyNamesMembers(m, []);
      assert [] + Keys(DenoteMembers(m)) == Keys(DenoteMembers(m));
    case _ =>
  }

  lemma {:induction false} OnlyNamesElems(e: Elems)
    requires ShapedElems(e) && AllButNamesElems(e)
    ensures ElemsFault(e) == NamesVerdict(NamesDistinctElems(e))
    decreases e, 0
  {
    hide TreeFault, Shaped, AllButNames, NamesDistinct;
    OnlyNames(e.value);
    if e.MoreElems? {
      OnlyNamesElems(e.rest);
    }
  }

  lemma {:induction false} OnlyNamesMembers(m: Members, names: seq<ByteString>)
    requires ShapedMembers(m) && AllButNamesMembers(m) && Distinct(names)
    ensures MembersFault(m, names)
         == NamesVerdict(NamesDistinctMembers(m) && Distinct(names + Keys(DenoteMembers(m))))
    decreases m, 0
  {
    hide TreeFault, Shaped, AllButNames, NamesDistinct, ItemsFault, WellFormedItems, DenoteString, Distinct, Keys;
    hide DenoteMembers;
    ItemsFaultless(m.key);
    OnlyNames(m.value);
    var k := DenoteString(m.key);
    KeysStep(m);
    var later := if m.MoreMembers? then Keys(DenoteMembers(m.rest)) else [];
    DistinctSteps(names, k, later);
    if m.MoreMembers? && k !in names {
      OnlyNamesMembers(m.rest, names + [k]);
    }
  }

  /**
   * A document within the bounds that is well-formed in everything but its names is accepted if the
   * names in every object are distinct after unescaping, and reported for a duplicate otherwise.
   */
  lemma DuplicatesReported(d: Document, l: Limits)
    requires ShapedDocument(d) && AllButNames(d.root)
    requires |DocumentText(d)| <= l.maxInputSize && DocumentFits(d, l)
    ensures ParseText(DocumentText(d), l) == if NamesDistinct(d.root) then Ok(Denote(d.root)) else Err(DuplicateKey)
  {
    hide ParseText, DocumentText, DocumentFits, TreeFault, Shaped, AllButNames, NamesDistinct;
    OutcomeExact(d, l);
    OnlyNames(d.root);
  }
}
