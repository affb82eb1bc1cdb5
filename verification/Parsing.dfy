/**
 * Strict parsing as a function of the remaining input, and its exact relation to
 * the grammar: it accepts a text iff some well-formed tree has that text and is
 * within the bounds, and it returns what that tree denotes.
 */
module Parsing {
  import opened Bytes
  import opened Unicode
  import opened Tokens
  import opened Doubles
  import opened Strings
  import opened Numbers
  import opened Values
  import opened Grammar

  /** A parsed value, the input after it, and the number of values seen so far. */
  datatype Parsed = Parsed(value: Value, rest: ByteString, count: nat)

  function SkipSpace(s: ByteString): (t: ByteString)
    ensures |t| <= |s|
    ensures t == [] || !IsSpace(t[0])
  {
    if s != [] && IsSpace(s[0]) then SkipSpace(s[1..]) else s
  }

  predicate StartsWith(s: ByteString, word: ByteString) {
    |word| <= |s| && s[..|word|] == word
  }

  function ParseBool(s: ByteString, count: nat): Result<Parsed> {
    if StartsWith(s, TRUE_TEXT) then Ok(Parsed(VBool(TRUE_TEXT), s[4..], count))
    else if StartsWith(s, FALSE_TEXT) then Ok(Parsed(VBool(FALSE_TEXT), s[5..], count))
    else Err(InvalidGrammar)
  }

  function ParseNull(s: ByteString, count: nat): Result<Parsed> {
    if StartsWith(s, NULL_TEXT) then Ok(Parsed(VNull, s[4..], count)) else Err(InvalidGrammar)
  }

  function ParseStringValue(s: ByteString, count: nat, l: Limits): Result<Parsed> {
    match ScanString(s, l.maxStringBytes)
    case Err(e) => Err(e)
    case Ok(r) => Ok(Parsed(VString(r.str), r.rest, count))
  }

  function ParseNumberValue(s: ByteString, count: nat, l: Limits): Result<Parsed> {
    match ScanNumber(s, l.maxNumberChars)
    case Err(e) => Err(e)
    case Ok(r) => Ok(Parsed(VNumber(r.num), r.rest, count))
  }

  /** A value at container depth `depth`, after `count` values. */
  function ParseValue(s: ByteString, depth: nat, count: nat, l: Limits): (r: Result<Parsed>)
    ensures r.Ok? ==> |r.value.rest| < |s|
    decreases |s|, 3
  {
    if count + 1 > l.maxValues then Err(BoundExceeded)
    else if s == [] then Err(InvalidGrammar)
    else if s[0] == LEFT_BRACE then ParseObject(s, depth, count + 1, l)
    else if s[0] == LEFT_BRACKET then ParseArray(s, depth, count + 1, l)
    else if s[0] == QUOTE then ParseStringValue(s, count + 1, l)
    else if s[0] == 0x74 || s[0] == 0x66 then ParseBool(s, count + 1)
    else if s[0] == 0x6E then ParseNull(s, count + 1)
    else ParseNumberValue(s, count + 1, l)
  }

  function ParseArray(s: ByteString, depth: nat, count: nat, l: Limits): (r: Result<Parsed>)
    requires s != []
    ensures r.Ok? ==> |r.value.rest| < |s|
    decreases |s|, 2
  {
    if depth + 1 > l.maxDepth then Err(BoundExceeded)
    else
      var t := SkipSpace(s[1..]);
      if t == [] then Err(InvalidGrammar)
      else if t[0] == RIGHT_BRACKET then Ok(Parsed(VArray([]), t[1..], count))
      else ParseElems(t, depth + 1, count, [], l)
  }

  /** What one turn of the element loop does once its value is parsed. */
  datatype ElemStep = StopElems(result: Result<Parsed>) | GoElems(rest: ByteString, count: nat, elems: seq<Value>)

  function ElemTurn(r: Result<Parsed>, elems: seq<Value>, l: Limits): (t: ElemStep)
    ensures t.GoElems? ==> r.Ok? && |t.rest| < |r.value.rest|
    ensures t.StopElems? && t.result.Ok? ==> r.Ok? && |t.result.value.rest| < |r.value.rest|
  {
    match r
    case Err(e) => StopElems(Err(e))
    case Ok(p) =>
      if |elems| >= l.maxArrayElements then StopElems(Err(BoundExceeded))
      else
        var t := SkipSpace(p.rest);
        if t == [] then StopElems(Err(InvalidGrammar))
        else if t[0] == RIGHT_BRACKET then StopElems(Ok(Parsed(VArray(elems + [p.value]), t[1..], p.count)))
        else if t[0] == COMMA then GoElems(t[1..], p.count, elems + [p.value])
        else StopElems(Err(InvalidGrammar))
  }

  /** The element loop: `elems` holds the elements read so far. */
  function ParseElems(s: ByteString, depth: nat, count: nat, elems: seq<Value>, l: Limits): (r: Result<Parsed>)
    ensures r.Ok? ==> |r.value.rest| < |s|
    decreases |s|, 4
  {
    match ElemTurn(ParseValue(SkipSpace(s), depth, count, l), elems, l)
    case StopElems(r) => r
    case GoElems(rest, count, more) => ParseElems(rest, depth, count, more, l)
  }

  function ParseObject(s: ByteString, depth: nat, count: nat, l: Limits): (r: Result<Parsed>)
    requires s != []
    ensures r.Ok? ==> |r.value.rest| < |s|
    decreases |s|, 2
  {
    if depth + 1 > l.maxDepth then Err(BoundExceeded)
    else
      var t := SkipSpace(s[1..]);
      if t == [] then Err(InvalidGrammar)
      else if t[0] == RIGHT_BRACE then Ok(Parsed(VObject([]), t[1..], count))
      else ParseMembers(t, depth + 1, count, [], l)
  }

  /** A new member name, and the input after the colon that follows it. */
  function ScanName(s: ByteString, members: seq<Entry<Value>>, l: Limits): (r: Result<Scanned>)
    ensures r.Ok? ==> |r.value.rest| < |s|
  {
    match ScanString(SkipSpace(s), l.maxStringBytes)
    case Err(e) => Err(e)
    case Ok(k) =>
      if k.str in Keys(members) then Err(DuplicateKey)
      else
        var t := SkipSpace(k.rest);
        if t == [] || t[0] != COLON then Err(InvalidGrammar) else Ok(Scanned(k.str, t[1..]))
  }

  /** What one turn of the member loop does once its value is parsed. */
  datatype MemberStep =
    StopMembers(result: Result<Parsed>) | GoMembers(rest: ByteString, count: nat, members: seq<Entry<Value>>)

  function MemberTurn(name: ByteString, r: Result<Parsed>, members: seq<Entry<Value>>, l: Limits): (t: MemberStep)
    ensures t.GoMembers? ==> r.Ok? && |t.rest| < |r.value.rest|
    ensures t.StopMembers? && t.result.Ok? ==> r.Ok? && |t.result.value.rest| < |r.value.rest|
  {
    match r
    case Err(e) => StopMembers(Err(e))
    case Ok(p) =>
      if |members| >= l.maxObjectMembers then StopMembers(Err(BoundExceeded))
      else
        var more := members + [Entry(name, p.value)];
        var u := SkipSpace(p.rest);
        if u == [] then StopMembers(Err(InvalidGrammar))
        else if u[0] == RIGHT_BRACE then StopMembers(Ok(Parsed(VObject(more), u[1..], p.count)))
        else if u[0] == COMMA then GoMembers(u[1..], p.count, more)
        else StopMembers(Err(InvalidGrammar))
  }

  /** The member loop: `members` holds the members read so far. */
  function ParseMembers(s: ByteString, depth: nat, count: nat, members: seq<Entry<Value>>, l: Limits):
    (r: Result<Parsed>)
    ensures r.Ok? ==> |r.value.rest| < |s|
    decreases |s|, 4
  {
    match ScanName(s, members, l)
    case Err(e) => Err(e)
    case Ok(n) =>
      match MemberTurn(n.str, ParseValue(SkipSpace(n.rest), depth, count, l), members, l)
      case StopMembers(r) => r
      case GoMembers(rest, count, more) => ParseMembers(rest, depth, count, more, l)
  }

  /** A complete JSON text. */
  function ParseText(data: ByteString, l: Limits): Result<Value> {
    if |data| > l.maxInputSize then Err(BoundExceeded)
    else if !ValidUtf8(data) then Err(InvalidUtf8)
    else
      match ParseValue(SkipSpace(data), 0, 0, l)
      case Err(e) => Err(e)
      case Ok(p) => if SkipSpace(p.rest) != [] then Err(InvalidGrammar) else Ok(p.value)
  }

  lemma ElemsDefinition(s: ByteString, depth: nat, count: nat, elems: seq<Value>, l: Limits)
    ensures var t := ElemTurn(ParseValue(SkipSpace(s), depth, count, l), elems, l);
      ParseElems(s, depth, count, elems, l) ==
        if t.StopElems? then t.result else ParseElems(t.rest, depth, t.count, t.elems, l)
  {
  }

  lemma MembersDefinition(s: ByteString, depth: nat, count: nat, members: seq<Entry<Value>>, l: Limits)
    ensures var n := ScanName(s, members, l);
      n.Err? ==> ParseMembers(s, depth, count, members, l) == Err(n.failure)
    ensures var n := ScanName(s, members, l);
      n.Ok? ==>
        var t := MemberTurn(n.value.str, ParseValue(SkipSpace(n.value.rest), depth, count, l), members, l);
        ParseMembers(s, depth, count, members, l) ==
          if t.StopMembers? then t.result else ParseMembers(t.rest, depth, t.count, t.members, l)
  {
  }

  // ---------- completeness ----------

  /** What may follow a value in a JSON text. */
  ghost predicate Follows(s: ByteString) {
    s == [] || IsSpace(s[0]) || s[0] == COMMA || s[0] == RIGHT_BRACKET || s[0] == RIGHT_BRACE
  }

  lemma {:induction false} SkipAllSpace(gap: ByteString, t: ByteString)
    requires AllSpace(gap) && (t == [] || !IsSpace(t[0]))
    ensures SkipSpace(gap + t) == t
  {
    if gap == [] {
      assert gap + t == t;
    } else {
      assert (gap + t)[1..] == gap[1..] + t;
      SkipAllSpace(gap[1..], t);
    }
  }

  lemma GapFollows(gap: ByteString, t: ByteString)
    requires AllSpace(gap) && Follows(t)
    ensures Follows(gap + t)
  {
    if gap == [] {
      assert gap + t == t;
    }
  }

  /** Number of elements of a list, as it grows the accumulated values. */
  lemma ElemsMeasures(e: Elems, l: Limits)
    ensures DenoteElems(e) == [Denote(e.value)] + if e.MoreElems? then DenoteElems(e.rest) else []
    ensures NodesAll(DenoteElems(e))
         == Nodes(Denote(e.value)) + if e.MoreElems? then NodesAll(DenoteElems(e.rest)) else 0
    ensures NestingAll(DenoteElems(e))
         == Max(Nesting(Denote(e.value)), if e.MoreElems? then NestingAll(DenoteElems(e.rest)) else 0)
    ensures FitsAll(DenoteElems(e), l) <==>
      Fits(Denote(e.value), l) && (e.MoreElems? ==> FitsAll(DenoteElems(e.rest), l))
  {
    var es := DenoteElems(e);
    assert es[0] == Denote(e.value);
    assert es[1..] == if e.MoreElems? then DenoteElems(e.rest) else [];
  }

  lemma MembersMeasures(m: Members, l: Limits)
    ensures DenoteMembers(m) == [Entry(DenoteString(m.key), Denote(m.value))]
      + if m.MoreMembers? then DenoteMembers(m.rest) else []
    ensures NodesMembers(DenoteMembers(m))
         == Nodes(Denote(m.value)) + if m.MoreMembers? then NodesMembers(DenoteMembers(m.rest)) else 0
    ensures NestingMembers(DenoteMembers(m))
         == Max(Nesting(Denote(m.value)), if m.MoreMembers? then NestingMembers(DenoteMembers(m.rest)) else 0)
    ensures FitsMembers(DenoteMembers(m), l) <==>
      |DenoteString(m.key)| <= l.maxStringBytes && Fits(Denote(m.value), l)
      && (m.MoreMembers? ==> FitsMembers(DenoteMembers(m.rest), l))
  {
    var ms := DenoteMembers(m);
    assert ms[0] == Entry(DenoteString(m.key), Denote(m.value));
    assert ms[1..] == if m.MoreMembers? then DenoteMembers(m.rest) else [];
  }

  /** The first byte of a value decides how it is parsed, and is not space. */
  lemma TextHead(j: Json, rest: ByteString)
    requires Shaped(j)
    ensures var s := Text(j) + rest;
      && s != [] && !IsSpace(s[0]) && s[0] != RIGHT_BRACKET && s[0] != RIGHT_BRACE
      && (s[0] == LEFT_BRACE <==> j.JObject? || j.JEmptyObject?)
      && (s[0] == LEFT_BRACKET <==> j.JArray? || j.JEmptyArray?)
      && (s[0] == QUOTE <==> j.JString?)
      && (s[0] == 0x74 || s[0] == 0x66 <==> j.JTrue? || j.JFalse?)
      && (s[0] == 0x6E <==> j.JNull?)
  {
    if j.JNumber? {
      MinusHead(j.token);
      if !j.token.negative {
        assert TokenText(j.token)[0] == ZERO + j.token.whole[0];
      }
    }
    assert (Text(j) + rest)[0] == Text(j)[0];
  }

  lemma StartsWithWord(word: ByteString, rest: ByteString)
    ensures StartsWith(word + rest, word) && (word + rest)[|word|..] == rest
  {
  }

  lemma StringComplete(items: seq<Item>, rest: ByteString, maxBytes: nat)
    requires WellFormedItems(items) && |Denoted(items)| <= maxBytes
    ensures ScanString(StringText(items) + rest, maxBytes) == Ok(Scanned(Denoted(items), rest))
  {
    hide StringBody, ItemsText, Denoted, WellFormedItems;
    var s := StringText(items) + rest;
    assert s[1..] == ItemsText(items) + ([QUOTE] + rest);
    StringBodyComplete(items, rest, maxBytes);
  }

  lemma FloatOfAccepted(t: Token)
    requires WellFormed(t) && AcceptedNumber(t)
    ensures NumberOutcome(t) == Ok(FloatOf(t))
  {
  }

  lemma {:induction false} ValueComplete(j: Json, rest: ByteString, depth: nat, count: nat, l: Limits)
    requires WellFormedJson(j) && Follows(rest)
    requires Fits(Denote(j), l) && TokensFit(j, l.maxNumberChars)
    requires depth + Nesting(Denote(j)) <= l.maxDepth && count + Nodes(Denote(j)) <= l.maxValues
    ensures ParseValue(Text(j) + rest, depth, count, l)
         == Ok(Parsed(Denote(j), rest, count + Nodes(Denote(j))))
    decreases j, 2
  {
    hide ParseValue, Text, NodesAll, NodesMembers, NestingAll, NestingMembers, FitsAll, FitsMembers;
    hide TokensFitElems, TokensFitMembers, WellFormedElems, WellFormedMembers, DenoteElems, DenoteMembers, Keys;
    hide AcceptedNumber, WellFormedItem, FloatOf;
    match j
    case JArray(e) => ArrayComplete(e, rest, depth, count, l);
    case JObject(m) => ObjectComplete(m, rest, depth, count, l);
    case _ =>
      LeafNodes(j);
      LeafComplete(j, rest, depth, count, l);
  }

  lemma LeafNodes(j: Json)
    requires !j.JArray? && !j.JObject?
    ensures Nodes(Denote(j)) == 1
  {
  }

  /** Values without inner values. */
  lemma LeafComplete(j: Json, rest: ByteString, depth: nat, count: nat, l: Limits)
    requires WellFormedJson(j) && Follows(rest) && !j.JArray? && !j.JObject?
    requires Fits(Denote(j), l) && TokensFit(j, l.maxNumberChars)
    requires depth + Nesting(Denote(j)) <= l.maxDepth && count + 1 <= l.maxValues
    ensures ParseValue(Text(j) + rest, depth, count, l) == Ok(Parsed(Denote(j), rest, count + 1))
  {
    hide ScanString, ScanNumber, TokenText, FloatOf, ItemsText, Denoted, AcceptedNumber, NumberOutcome;
    hide ParseElems, ParseMembers;
    TextHead(j, rest);
    var s := Text(j) + rest;
    match j
    case JNull => StartsWithWord(NULL_TEXT, rest);
    case JTrue => StartsWithWord(TRUE_TEXT, rest);
    case JFalse =>
      StartsWithWord(FALSE_TEXT, rest);
      assert s[0] == 0x66;
      assert TRUE_TEXT[0] == 0x74;
      assert !StartsWith(s, TRUE_TEXT);
    case JNumber(t) =>
      NumberComplete(t, rest, l.maxNumberChars);
      FloatOfAccepted(t);
    case JString(items) => StringComplete(items, rest, l.maxStringBytes);
    case JEmptyArray(gap) =>
      assert s[1..] == gap + ([RIGHT_BRACKET] + rest);
      SkipAllSpace(gap, [RIGHT_BRACKET] + rest);
    case JEmptyObject(gap) =>
      assert s[1..] == gap + ([RIGHT_BRACE] + rest);
      SkipAllSpace(gap, [RIGHT_BRACE] + rest);
  }

  lemma {:induction false} ArrayComplete(e: Elems, rest: ByteString, depth: nat, count: nat, l: Limits)
    requires WellFormedElems(e) && |DenoteElems(e)| <= l.maxArrayElements
    requires FitsAll(DenoteElems(e), l) && TokensFitElems(e, l.maxNumberChars)
    requires depth + 1 + NestingAll(DenoteElems(e)) <= l.maxDepth
    requires count + 1 + NodesAll(DenoteElems(e)) <= l.maxValues
    ensures ParseValue(Text(JArray(e)) + rest, depth, count, l)
         == Ok(Parsed(VArray(DenoteElems(e)), rest, count + 1 + NodesAll(DenoteElems(e))))
    decreases e, 1
  {
    hide ParseElems, ElemsText, SkipSpace, NodesAll, NestingAll, FitsAll, TokensFitElems, WellFormedElems;
    var s := Text(JArray(e)) + rest;
    var t := ElemsText(e) + ([RIGHT_BRACKET] + rest);
    assert s[0] == LEFT_BRACKET && s[1..] == t;
    ElemsHead(e, [RIGHT_BRACKET] + rest);
    ElemsComplete(e, rest, depth + 1, count + 1, [], l);
    ElemsAfterSpace(t, depth + 1, count + 1, [], l);
    assert [] + DenoteElems(e) == DenoteElems(e);
  }

  lemma {:induction false} ObjectComplete(m: Members, rest: ByteString, depth: nat, count: nat, l: Limits)
    requires WellFormedMembers(m) && Distinct(Keys(DenoteMembers(m)))
    requires |DenoteMembers(m)| <= l.maxObjectMembers
    requires FitsMembers(DenoteMembers(m), l) && TokensFitMembers(m, l.maxNumberChars)
    requires depth + 1 + NestingMembers(DenoteMembers(m)) <= l.maxDepth
    requires count + 1 + NodesMembers(DenoteMembers(m)) <= l.maxValues
    ensures ParseValue(Text(JObject(m)) + rest, depth, count, l)
         == Ok(Parsed(VObject(DenoteMembers(m)), rest, count + 1 + NodesMembers(DenoteMembers(m))))
    decreases m, 1
  {
    hide ParseMembers, MembersText, SkipSpace, NodesMembers, NestingMembers, FitsMembers, TokensFitMembers, Keys;
    hide WellFormedMembers;
    var s := Text(JObject(m)) + rest;
    var t := MembersText(m) + ([RIGHT_BRACE] + rest);
    assert s[0] == LEFT_BRACE && s[1..] == t;
    MembersHead(m, [RIGHT_BRACE] + rest);
    assert [] + DenoteMembers(m) == DenoteMembers(m);
    MembersComplete(m, rest, depth + 1, count + 1, [], l);
    MembersAfterSpace(t, depth + 1, count + 1, [], l);
  }

  /** The loops skip leading space themselves. */
  lemma ElemsAfterSpace(s: ByteString, depth: nat, count: nat, elems: seq<Value>, l: Limits)
    ensures ParseElems(SkipSpace(s), depth, count, elems, l) == ParseElems(s, depth, count, elems, l)
  {
    SkipAllSpace([], SkipSpace(s));
    assert [] + SkipSpace(s) == SkipSpace(s);
  }

  lemma MembersAfterSpace(s: ByteString, depth: nat, count: nat, members: seq<Entry<Value>>, l: Limits)
    ensures ParseMembers(SkipSpace(s), depth, count, members, l) == ParseMembers(s, depth, count, members, l)
  {
    hide ScanString, MemberTurn, ParseValue, Keys;
    SkipAllSpace([], SkipSpace(s));
    assert [] + SkipSpace(s) == SkipSpace(s);
  }

  lemma ElemsHead(e: Elems, rest: ByteString)
    requires ShapedElems(e)
    ensures var t := SkipSpace(ElemsText(e) + rest); t != [] && t[0] != RIGHT_BRACKET
  {
    hide Text, ElemsText, SkipSpace;
    var tail := e.after + ElemsMore(e, rest);
    ElemsTextShape(e, rest);
    TextHead(e.value, tail);
    SkipAllSpace(e.before, Text(e.value) + tail);
  }

  lemma MembersHead(m: Members, rest: ByteString)
    requires ShapedMembers(m)
    ensures var t := SkipSpace(MembersText(m) + rest); t != [] && t[0] != RIGHT_BRACE
  {
    hide Text, MembersText, ItemsText, SkipSpace;
    var tail := m.afterKey + ([COLON] + (m.beforeValue + (Text(m.value) + (m.after + MembersMore(m, rest)))));
    MembersTextShape(m, rest);
    SkipAllSpace(m.before, StringText(m.key) + tail);
  }

  lemma ElemsTextShape(e: Elems, close: ByteString)
    requires ShapedElems(e)
    ensures ElemsText(e) + close == e.before + (Text(e.value) + (e.after + ElemsMore(e, close)))
  {
    hide Text, Shaped;
    var end := if e.MoreElems? then [COMMA] + ElemsText(e.rest) else [];
    AppendThrough(e.before, Text(e.value), e.after, end, close);
    if e.MoreElems? {
      AppendAssociative([COMMA], ElemsText(e.rest), close);
    } else {
      assert [] + close == close;
    }
  }

  lemma AppendThrough(a: ByteString, b: ByteString, c: ByteString, d: ByteString, tail: ByteString)
    ensures (a + (b + (c + d))) + tail == a + (b + (c + (d + tail)))
  {
  }

  lemma {:induction false} ElemsComplete(
    e: Elems, rest: ByteString, depth: nat, count: nat, elems: seq<Value>, l: Limits)
    requires WellFormedElems(e)
    requires FitsAll(DenoteElems(e), l) && TokensFitElems(e, l.maxNumberChars)
    requires |elems| + |DenoteElems(e)| <= l.maxArrayElements
    requires depth + NestingAll(DenoteElems(e)) <= l.maxDepth
    requires count + NodesAll(DenoteElems(e)) <= l.maxValues
    ensures ParseElems(ElemsText(e) + ([RIGHT_BRACKET] + rest), depth, count, elems, l)
         == Ok(Parsed(VArray(elems + DenoteElems(e)), rest, count + NodesAll(DenoteElems(e))))
    decreases e, 0
  {
    hide ParseValue, ParseElems, Text, Nodes, Nesting, NodesAll, NestingAll, FitsAll, Fits;
    hide Denote, DenoteElems, ElemsText, TokensFit;
    ElemsMeasures(e, l);
    var close := [RIGHT_BRACKET] + rest;
    var tail := e.after + ElemsMore(e, close);
    var v := Denote(e.value);
    var others := if e.MoreElems? then DenoteElems(e.rest) else [];
    GapFollows(e.after, ElemsMore(e, close));
    ValueComplete(e.value, tail, depth, count, l);
    ElemsTurn(e, close, depth, count, elems, l, count + Nodes(v));
    if e.MoreElems? {
      ElemsComplete(e.rest, rest, depth, count + Nodes(v), elems + [v], l);
      assert elems + ([v] + others) == elems + [v] + others;
    } else {
      assert elems + ([v] + others) == elems + [v];
    }
  }

  /** The text after an element and the space behind it, up to the closing bracket. */
  ghost function ElemsMore(e: Elems, close: ByteString): ByteString
    requires ShapedElems(e)
  {
    if e.MoreElems? then [COMMA] + (ElemsText(e.rest) + close) else close
  }

  /** One turn of the element loop on the text of an element list. */
  lemma ElemsTurn(e: Elems, close: ByteString, depth: nat, count: nat, elems: seq<Value>, l: Limits, after: nat)
    requires ShapedElems(e) && close != [] && close[0] == RIGHT_BRACKET
    requires |elems| < l.maxArrayElements
    requires var tail := e.after + ElemsMore(e, close);
      ParseValue(Text(e.value) + tail, depth, count, l) == Ok(Parsed(Denote(e.value), tail, after))
    ensures ParseElems(ElemsText(e) + close, depth, count, elems, l) ==
      if e.MoreElems? then ParseElems(ElemsText(e.rest) + close, depth, after, elems + [Denote(e.value)], l)
      else Ok(Parsed(VArray(elems + [Denote(e.value)]), close[1..], after))
  {
    hide ParseValue, ParseElems, Text, SkipSpace, Denote;
    var more := ElemsMore(e, close);
    var tail := e.after + more;
    TextHead(e.value, tail);
    ElemsTextShape(e, close);
    SkipAllSpace(e.before, Text(e.value) + tail);
    SkipAllSpace(e.after, more);
    ElemsUnfold(ElemsText(e) + close, depth, count, elems, l, Parsed(Denote(e.value), tail, after));
    if e.MoreElems? {
      assert more[1..] == ElemsText(e.rest) + close;
    }
  }

  /** One turn of the element loop, once its value is known. */
  lemma ElemsUnfold(s: ByteString, depth: nat, count: nat, elems: seq<Value>, l: Limits, p: Parsed)
    requires ParseValue(SkipSpace(s), depth, count, l) == Ok(p) && |elems| < l.maxArrayElements
    ensures var t := SkipSpace(p.rest);
      ParseElems(s, depth, count, elems, l) ==
        if t == [] then Err(InvalidGrammar)
        else if t[0] == RIGHT_BRACKET then Ok(Parsed(VArray(elems + [p.value]), t[1..], p.count))
        else if t[0] == COMMA then ParseElems(t[1..], depth, p.count, elems + [p.value], l)
        else Err(InvalidGrammar)
  {
  }

  /** One turn of the member loop, once its name and value are known. */
  lemma MembersUnfold(s: ByteString, depth: nat, count: nat, members: seq<Entry<Value>>, l: Limits,
                      k: Scanned, afterColon: ByteString, p: Parsed)
    requires ScanString(SkipSpace(s), l.maxStringBytes) == Ok(k) && k.str !in Keys(members)
    requires SkipSpace(k.rest) == [COLON] + afterColon
    requires ParseValue(SkipSpace(afterColon), depth, count, l) == Ok(p) && |members| < l.maxObjectMembers
    ensures var more := members + [Entry(k.str, p.value)];
      var u := SkipSpace(p.rest);
      ParseMembers(s, depth, count, members, l) ==
        if u == [] then Err(InvalidGrammar)
        else if u[0] == RIGHT_BRACE then Ok(Parsed(VObject(more), u[1..], p.count))
        else if u[0] == COMMA then ParseMembers(u[1..], depth, p.count, more, l)
        else Err(InvalidGrammar)
  {
    assert ([COLON] + afterColon)[1..] == afterColon;
  }

  lemma DistinctSplit(a: seq<Entry<Value>>, e: Entry<Value>, b: seq<Entry<Value>>)
    requires Distinct(Keys(a + ([e] + b)))
    ensures e.key !in Keys(a) && Distinct(Keys((a + [e]) + b))
  {
    var all := a + ([e] + b);
    assert all == (a + [e]) + b;
    assert Keys(all)[|a|] == e.key;
    forall i | 0 <= i < |a| ensures Keys(a)[i] != e.key {
      assert Keys(all)[i] == Keys(a)[i];
    }
  }

  lemma {:induction false} MembersComplete(
    m: Members, rest: ByteString, depth: nat, count: nat, members: seq<Entry<Value>>, l: Limits)
    requires WellFormedMembers(m) && Distinct(Keys(members + DenoteMembers(m)))
    requires FitsMembers(DenoteMembers(m), l) && TokensFitMembers(m, l.maxNumberChars)
    requires |members| + |DenoteMembers(m)| <= l.maxObjectMembers
    requires depth + NestingMembers(DenoteMembers(m)) <= l.maxDepth
    requires count + NodesMembers(DenoteMembers(m)) <= l.maxValues
    ensures ParseMembers(MembersText(m) + ([RIGHT_BRACE] + rest), depth, count, members, l)
         == Ok(Parsed(VObject(members + DenoteMembers(m)), rest, count + NodesMembers(DenoteMembers(m))))
    decreases m, 0
  {
    hide ParseValue, ParseMembers, Text, Nodes, Nesting, NodesMembers, NestingMembers, FitsMembers, Fits;
    hide Keys, Denote, DenoteMembers, Denoted, MembersText, TokensFit;
    MembersMeasures(m, l);
    var close := [RIGHT_BRACE] + rest;
    var tail := m.after + MembersMore(m, close);
    var v := Denote(m.value);
    var entry := Entry(Denoted(m.key), v);
    var others := if m.MoreMembers? then DenoteMembers(m.rest) else [];
    DistinctSplit(members, entry, others);
    GapFollows(m.after, MembersMore(m, close));
    ValueComplete(m.value, tail, depth, count, l);
    MembersTurn(m, close, depth, count, members, l, count + Nodes(v));
    if m.MoreMembers? {
      MembersComplete(m.rest, rest, depth, count + Nodes(v), members + [entry], l);
      assert members + ([entry] + others) == members + [entry] + others;
    } else {
      assert members + ([entry] + others) == members + [entry];
    }
  }

  ghost function MembersMore(m: Members, close: ByteString): ByteString
    requires ShapedMembers(m)
  {
    if m.MoreMembers? then [COMMA] + (MembersText(m.rest) + close) else close
  }

  /** One turn of the member loop on the text of a member list. */
  lemma MembersTurn(
    m: Members, close: ByteString, depth: nat, count: nat, members: seq<Entry<Value>>, l: Limits, after: nat)
    requires ShapedMembers(m) && WellFormedItems(m.key) && close != [] && close[0] == RIGHT_BRACE
    requires |members| < l.maxObjectMembers && |Denoted(m.key)| <= l.maxStringBytes
    requires Denoted(m.key) !in Keys(members)
    requires var tail := m.after + MembersMore(m, close);
      ParseValue(Text(m.value) + tail, depth, count, l) == Ok(Parsed(Denote(m.value), tail, after))
    ensures var more := members + [Entry(Denoted(m.key), Denote(m.value))];
      ParseMembers(MembersText(m) + close, depth, count, members, l) ==
        if m.MoreMembers? then ParseMembers(MembersText(m.rest) + close, depth, after, more, l)
        else Ok(Parsed(VObject(more), close[1..], after))
  {
    hide ParseValue, ParseMembers, Text, SkipSpace, Denote, ScanString, Keys, ItemsText, Denoted;
    var more := MembersMore(m, close);
    var tail := m.after + more;
    var afterColon := m.beforeValue + (Text(m.value) + tail);
    var afterKey := m.afterKey + ([COLON] + afterColon);
    MembersTextShape(m, close);
    SkipAllSpace(m.before, StringText(m.key) + afterKey);
    StringComplete(m.key, afterKey, l.maxStringBytes);
    SkipAllSpace(m.afterKey, [COLON] + afterColon);
    TextHead(m.value, tail);
    SkipAllSpace(m.beforeValue, Text(m.value) + tail);
    SkipAllSpace(m.after, more);
    MembersUnfold(MembersText(m) + close, depth, count, members, l, Scanned(Denoted(m.key), afterKey),
                  afterColon, Parsed(Denote(m.value), tail, after));
    if m.MoreMembers? {
      assert more[1..] == MembersText(m.rest) + close;
    }
  }

  lemma MembersTextShape(m: Members, close: ByteString)
    requires ShapedMembers(m)
    ensures MembersText(m) + close ==
      m.before + (StringText(m.key) + (m.afterKey + ([COLON] + (m.beforeValue
        + (Text(m.value) + (m.after + MembersMore(m, close)))))))
  {
    hide Text, StringText, Shaped, ShapedItem;
    var end := if m.MoreMembers? then [COMMA] + MembersText(m.rest) else [];
    if m.MoreMembers? {
      AppendAssociative([COMMA], MembersText(m.rest), close);
    } else {
      assert [] + close == close;
    }
    var a := m.after + end;
    var b := Text(m.value) + a;
    var c := m.beforeValue + b;
    var d := [COLON] + c;
    var e := m.afterKey + d;
    AppendAssociative(m.after, end, close);
    AppendAssociative(Text(m.value), a, close);
    AppendAssociative(m.beforeValue, b, close);
    AppendAssociative([COLON], c, close);
    AppendAssociative(m.afterKey, d, close);
    AppendAssociative(StringText(m.key), e, close);
    AppendAssociative(m.before, StringText(m.key) + e, close);
  }

  // ---------- soundness ----------

  /** Skipped space is a gap. */
  lemma {:induction false} SkippedIsSpace(s: ByteString) returns (gap: ByteString)
    ensures AllSpace(gap) && s == gap + SkipSpace(s)
  {
    if s != [] && IsSpace(s[0]) {
      var more := SkippedIsSpace(s[1..]);
      gap := [s[0]] + more;
      assert s == [s[0]] + s[1..];
    } else {
      gap := [];
    }
  }

  lemma StringSound(s: ByteString, maxBytes: nat) returns (items: seq<Item>)
    requires ScanString(s, maxBytes).Ok?
    ensures WellFormedItems(items)
    ensures var r := ScanString(s, maxBytes).value;
      s == StringText(items) + r.rest && r.str == Denoted(items) && |r.str| <= maxBytes
  {
    hide StringBody, ItemsText, Denoted, WellFormedItems;
    items := StringBodySound(s[1..], maxBytes);
    assert s == [s[0]] + s[1..];
  }

  /** The tree `j` accounts for the text between `s` and `p.rest`, and is within the bounds. */
  ghost predicate Explains(j: Json, s: ByteString, depth: nat, count: nat, l: Limits, p: Parsed) {
    && WellFormedJson(j) && s == Text(j) + p.rest && p.value == Denote(j)
    && p.count == count + Nodes(p.value) && p.count <= l.maxValues
    && depth + Nesting(p.value) <= l.maxDepth
    && Fits(p.value, l) && TokensFit(j, l.maxNumberChars)
  }

  ghost predicate ElemsExplain(
    e: Elems, s: ByteString, depth: nat, count: nat, elems: seq<Value>, l: Limits, p: Parsed)
  {
    && WellFormedElems(e) && s == ElemsText(e) + ([RIGHT_BRACKET] + p.rest)
    && p.value == VArray(elems + DenoteElems(e)) && |elems + DenoteElems(e)| <= l.maxArrayElements
    && p.count == count + NodesAll(DenoteElems(e)) && p.count <= l.maxValues
    && depth + NestingAll(DenoteElems(e)) <= l.maxDepth
    && FitsAll(DenoteElems(e), l) && TokensFitElems(e, l.maxNumberChars)
  }

  ghost predicate MembersExplain(
    m: Members, s: ByteString, depth: nat, count: nat, members: seq<Entry<Value>>, l: Limits, p: Parsed)
  {
    && WellFormedMembers(m) && s == MembersText(m) + ([RIGHT_BRACE] + p.rest)
    && p.value == VObject(members + DenoteMembers(m)) && |members + DenoteMembers(m)| <= l.maxObjectMembers
    && Distinct(Keys(members + DenoteMembers(m)))
    && p.count == count + NodesMembers(DenoteMembers(m)) && p.count <= l.maxValues
    && depth + NestingMembers(DenoteMembers(m)) <= l.maxDepth
    && FitsMembers(DenoteMembers(m), l) && TokensFitMembers(m, l.maxNumberChars)
  }

  lemma {:induction false} ValueSound(s: ByteString, depth: nat, count: nat, l: Limits) returns (j: Json)
    requires ParseValue(s, depth, count, l).Ok? && depth <= l.maxDepth
    ensures Explains(j, s, depth, count, l, ParseValue(s, depth, count, l).value)
    decreases |s|, 3
  {
    if s[0] == LEFT_BRACE {
      j := ObjectSound(s, depth, count + 1, l);
    } else if s[0] == LEFT_BRACKET {
      j := ArraySound(s, depth, count + 1, l);
    } else {
      j := LeafSound(s, depth, count, l);
    }
  }

  lemma LeafSound(s: ByteString, depth: nat, count: nat, l: Limits) returns (j: Json)
    requires ParseValue(s, depth, count, l).Ok? && depth <= l.maxDepth
    requires s[0] != LEFT_BRACE && s[0] != LEFT_BRACKET
    ensures Explains(j, s, depth, count, l, ParseValue(s, depth, count, l).value)
  {
    hide ScanString, ScanNumber, TokenText, ItemsText, Denoted, AcceptedNumber, Round;
    if s[0] == QUOTE {
      var items := StringSound(s, l.maxStringBytes);
      j := JString(items);
    } else if s[0] == 0x74 || s[0] == 0x66 {
      j := if StartsWith(s, TRUE_TEXT) then JTrue else JFalse;
      assert s == s[..|Text(j)|] + s[|Text(j)|..];
    } else if s[0] == 0x6E {
      j := JNull;
      assert s == s[..4] + s[4..];
    } else {
      var t := NumberSound(s, l.maxNumberChars);
      j := JNumber(t);
      AcceptedFloat(t);
    }
  }

  lemma AcceptedFloat(t: Token)
    requires AcceptedNumber(t)
    ensures FloatOf(t) == Finite(t.negative, Round(AbsoluteValue(t)))
  {
  }

  lemma {:induction false} ArraySound(s: ByteString, depth: nat, count: nat, l: Limits) returns (j: Json)
    requires s != [] && s[0] == LEFT_BRACKET && ParseArray(s, depth, count, l).Ok? && 1 <= count <= l.maxValues
    ensures Explains(j, s, depth, count - 1, l, ParseArray(s, depth, count, l).value)
    decreases |s|, 2
  {
    hide ParseElems, SkipSpace, ElemsText, ElemsExplain, Explains;
    var gap := SkippedIsSpace(s[1..]);
    var t := SkipSpace(s[1..]);
    assert s == [LEFT_BRACKET] + (gap + t);
    if t[0] == RIGHT_BRACKET {
      j := JEmptyArray(gap);
      assert t == [RIGHT_BRACKET] + t[1..];
      EmptyArrayExplains(gap, t[1..], depth, count, l);
    } else {
      var e := ElemsSound(t, depth + 1, count, [], l);
      j := JArray(e.(before := gap + e.before));
      ArrayExplains(e, gap, t, depth, count, l, ParseElems(t, depth + 1, count, [], l).value);
    }
  }

  lemma EmptyArrayExplains(gap: ByteString, rest: ByteString, depth: nat, count: nat, l: Limits)
    requires AllSpace(gap) && 1 <= count <= l.maxValues && depth + 1 <= l.maxDepth
    ensures Explains(JEmptyArray(gap), [LEFT_BRACKET] + (gap + ([RIGHT_BRACKET] + rest)), depth, count - 1, l,
                     Parsed(VArray([]), rest, count))
  {
    assert gap + [RIGHT_BRACKET] + rest == gap + ([RIGHT_BRACKET] + rest);
  }

  lemma EmptyObjectExplains(gap: ByteString, rest: ByteString, depth: nat, count: nat, l: Limits)
    requires AllSpace(gap) && 1 <= count <= l.maxValues && depth + 1 <= l.maxDepth
    ensures Explains(JEmptyObject(gap), [LEFT_BRACE] + (gap + ([RIGHT_BRACE] + rest)), depth, count - 1, l,
                     Parsed(VObject([]), rest, count))
  {
    assert gap + [RIGHT_BRACE] + rest == gap + ([RIGHT_BRACE] + rest);
  }

  lemma ArrayExplains(e: Elems, gap: ByteString, t: ByteString, depth: nat, count: nat, l: Limits, p: Parsed)
    requires ElemsExplain(e, t, depth + 1, count, [], l, p) && AllSpace(gap) && 1 <= count
    ensures Explains(JArray(e.(before := gap + e.before)), [LEFT_BRACKET] + (gap + t), depth, count - 1, l, p)
  {
    hide ElemsText, DenoteElems, NodesAll, NestingAll, FitsAll, TokensFitElems, WellFormedElems;
    WidenElems(e, gap, l.maxNumberChars);
    assert [] + DenoteElems(e) == DenoteElems(e);
    AppendThrough([], gap, ElemsText(e), [RIGHT_BRACKET], p.rest);
  }

  lemma ObjectExplains(m: Members, gap: ByteString, t: ByteString, depth: nat, count: nat, l: Limits, p: Parsed)
    requires MembersExplain(m, t, depth + 1, count, [], l, p) && AllSpace(gap) && 1 <= count
    ensures Explains(JObject(m.(before := gap + m.before)), [LEFT_BRACE] + (gap + t), depth, count - 1, l, p)
  {
    hide MembersText, DenoteMembers, NodesMembers, NestingMembers, FitsMembers, TokensFitMembers, WellFormedMembers;
    hide Keys;
    WidenMembers(m, gap, l.maxNumberChars);
    assert [] + DenoteMembers(m) == DenoteMembers(m);
    AppendThrough([], gap, MembersText(m), [RIGHT_BRACE], p.rest);
  }

  /** Space in front of a list belongs to its first element. */
  lemma WidenElems(e: Elems, gap: ByteString, maxChars: int)
    requires WellFormedElems(e) && AllSpace(gap)
    ensures var wide := e.(before := gap + e.before);
      && WellFormedElems(wide) && ElemsText(wide) == gap + ElemsText(e)
      && DenoteElems(wide) == DenoteElems(e)
      && (TokensFitElems(wide, maxChars) <==> TokensFitElems(e, maxChars))
  {
    hide Text, Denote, TokensFit, WellFormedJson, Shaped;
    var x := Text(e.value) + (e.after + if e.MoreElems? then [COMMA] + ElemsText(e.rest) else []);
    assert ElemsText(e) == e.before + x;
    AppendAssociative(gap, e.before, x);
  }

  lemma WidenMembers(m: Members, gap: ByteString, maxChars: int)
    requires WellFormedMembers(m) && AllSpace(gap)
    ensures var wide := m.(before := gap + m.before);
      && WellFormedMembers(wide) && MembersText(wide) == gap + MembersText(m)
      && DenoteMembers(wide) == DenoteMembers(m)
      && (TokensFitMembers(wide, maxChars) <==> TokensFitMembers(m, maxChars))
  {
    hide Text, Denote, TokensFit, WellFormedJson, StringText, Shaped, ShapedItems, WellFormedItems, DenoteString;
    var x := StringText(m.key) + (m.afterKey + ([COLON] + (m.beforeValue + (Text(m.value)
      + (m.after + if m.MoreMembers? then [COMMA] + MembersText(m.rest) else [])))));
    assert MembersText(m) == m.before + x;
    AppendAssociative(gap, m.before, x);
  }

  lemma {:induction false} ElemsSound(s: ByteString, depth: nat, count: nat, elems: seq<Value>, l: Limits)
    returns (e: Elems)
    requires ParseElems(s, depth, count, elems, l).Ok? && count <= l.maxValues && depth <= l.maxDepth
    ensures ElemsExplain(e, s, depth, count, elems, l, ParseElems(s, depth, count, elems, l).value)
    decreases |s|, 4
  {
    hide ParseValue, Text, SkipSpace, Explains, ElemsExplain;
    var before := SkippedIsSpace(s);
    var p := ParseValue(SkipSpace(s), depth, count, l).value;
    var j := ValueSound(SkipSpace(s), depth, count, l);
    var after := SkippedIsSpace(p.rest);
    var t := SkipSpace(p.rest);
    assert t == [t[0]] + t[1..];
    ExplainedCount(j, SkipSpace(s), depth, count, l, p);
    if t[0] == RIGHT_BRACKET {
      e := LastElem(before, j, after);
      LastElemExplains(e, SkipSpace(s), depth, count, elems, l, p, t[1..]);
    } else {
      var more := ElemsSound(t[1..], depth, p.count, elems + [p.value], l);
      e := MoreElems(before, j, after, more);
      MoreElemsExplain(e, SkipSpace(s), depth, count, elems, l, p, t[1..],
                       ParseElems(t[1..], depth, p.count, elems + [p.value], l).value);
    }
  }

  lemma ExplainedCount(j: Json, s: ByteString, depth: nat, count: nat, l: Limits, p: Parsed)
    requires Explains(j, s, depth, count, l, p)
    ensures p.count <= l.maxValues
  {
  }

  lemma LastElemExplains(e: Elems, s: ByteString, depth: nat, count: nat, elems: seq<Value>, l: Limits,
                         p: Parsed, rest: ByteString)
    requires e.LastElem? && AllSpace(e.before) && AllSpace(e.after)
    requires Explains(e.value, s, depth, count, l, p) && p.rest == e.after + ([RIGHT_BRACKET] + rest)
    requires |elems| < l.maxArrayElements
    ensures ElemsExplain(e, e.before + s, depth, count, elems, l,
                         Parsed(VArray(elems + [p.value]), rest, p.count))
  {
    hide Text, Denote, TokensFit, WellFormedJson, Nodes, Nesting, Fits;
    ElemsTextShape(e, [RIGHT_BRACKET] + rest);
    ElemsMeasures(e, l);
    assert DenoteElems(e) == [p.value];
  }

  lemma MoreElemsExplain(e: Elems, s: ByteString, depth: nat, count: nat, elems: seq<Value>, l: Limits,
                         p: Parsed, t: ByteString, q: Parsed)
    requires e.MoreElems? && AllSpace(e.before) && AllSpace(e.after)
    requires Explains(e.value, s, depth, count, l, p) && p.rest == e.after + ([COMMA] + t)
    requires ElemsExplain(e.rest, t, depth, p.count, elems + [p.value], l, q)
    ensures ElemsExplain(e, e.before + s, depth, count, elems, l, q)
  {
    hide Text, Denote, TokensFit, WellFormedJson, Nodes, Nesting, Fits, ElemsText, FitsAll, NodesAll, NestingAll;
    hide DenoteElems;
    ElemsTextShape(e, [RIGHT_BRACKET] + q.rest);
    ElemsMeasures(e, l);
    assert elems + [p.value] + DenoteElems(e.rest) == elems + DenoteElems(e);
  }

  lemma {:induction false} ObjectSound(s: ByteString, depth: nat, count: nat, l: Limits) returns (j: Json)
    requires s != [] && s[0] == LEFT_BRACE && ParseObject(s, depth, count, l).Ok? && 1 <= count <= l.maxValues
    ensures Explains(j, s, depth, count - 1, l, ParseObject(s, depth, count, l).value)
    decreases |s|, 2
  {
    hide ParseMembers, SkipSpace, MembersText, Keys, MembersExplain, Explains;
    var gap := SkippedIsSpace(s[1..]);
    var t := SkipSpace(s[1..]);
    assert s == [LEFT_BRACE] + (gap + t);
    if t[0] == RIGHT_BRACE {
      j := JEmptyObject(gap);
      assert t == [RIGHT_BRACE] + t[1..];
      EmptyObjectExplains(gap, t[1..], depth, count, l);
    } else {
      NoKeys();
      var m := MembersSound(t, depth + 1, count, [], l);
      j := JObject(m.(before := gap + m.before));
      ObjectExplains(m, gap, t, depth, count, l, ParseMembers(t, depth + 1, count, [], l).value);
    }
  }

  lemma NoKeys()
    ensures Distinct(Keys<Value>([]))
  {
  }

  lemma DistinctExtend(a: seq<Entry<Value>>, e: Entry<Value>)
    requires Distinct(Keys(a)) && e.key !in Keys(a)
    ensures Distinct(Keys(a + [e]))
  {
    assert Keys(a + [e]) == Keys(a) + [e.key];
  }

  lemma {:induction false} MembersSound(
    s: ByteString, depth: nat, count: nat, members: seq<Entry<Value>>, l: Limits)
    returns (m: Members)
    requires ParseMembers(s, depth, count, members, l).Ok? && count <= l.maxValues && depth <= l.maxDepth
    requires Distinct(Keys(members))
    ensures MembersExplain(m, s, depth, count, members, l, ParseMembers(s, depth, count, members, l).value)
    decreases |s|, 4
  {
    hide ParseValue, Text, SkipSpace, ScanString, Keys, Denoted, ItemsText, Explains, MembersExplain;
    var before := SkippedIsSpace(s);
    var k := ScanString(SkipSpace(s), l.maxStringBytes).value;
    var key := StringSound(SkipSpace(s), l.maxStringBytes);
    var afterKey := SkippedIsSpace(k.rest);
    var t := SkipSpace(k.rest);
    assert t == [COLON] + t[1..];
    var beforeValue := SkippedIsSpace(t[1..]);
    var v := SkipSpace(t[1..]);
    var p := ParseValue(v, depth, count, l).value;
    var j := ValueSound(v, depth, count, l);
    var after := SkippedIsSpace(p.rest);
    var u := SkipSpace(p.rest);
    var entry := Entry(k.str, p.value);
    assert u == [u[0]] + u[1..];
    DistinctExtend(members, entry);
    ExplainedCount(j, v, depth, count, l, p);
    if u[0] == RIGHT_BRACE {
      m := LastMember(before, key, afterKey, beforeValue, j, after);
      LastMemberExplains(m, v, depth, count, members, l, p, u[1..]);
    } else {
      var more := MembersSound(u[1..], depth, p.count, members + [entry], l);
      m := MoreMembers(before, key, afterKey, beforeValue, j, after, more);
      MoreMembersExplain(m, v, depth, count, members, l, p, u[1..],
                         ParseMembers(u[1..], depth, p.count, members + [entry], l).value);
    }
    assert s == before + (StringText(key) + (afterKey + ([COLON] + (beforeValue + v))));
  }

  lemma LastMemberExplains(m: Members, v: ByteString, depth: nat, count: nat, members: seq<Entry<Value>>,
                           l: Limits, p: Parsed, rest: ByteString)
    requires m.LastMember? && AllSpace(m.before) && AllSpace(m.afterKey) && AllSpace(m.beforeValue)
    requires AllSpace(m.after) && WellFormedItems(m.key) && |Denoted(m.key)| <= l.maxStringBytes
    requires Explains(m.value, v, depth, count, l, p) && p.rest == m.after + ([RIGHT_BRACE] + rest)
    requires |members| < l.maxObjectMembers && Distinct(Keys(members + [Entry(Denoted(m.key), p.value)]))
    ensures MembersExplain(m, m.before + (StringText(m.key) + (m.afterKey + ([COLON] + (m.beforeValue + v)))),
                           depth, count, members, l,
                           Parsed(VObject(members + [Entry(Denoted(m.key), p.value)]), rest, p.count))
  {
    hide Text, Denote, TokensFit, WellFormedJson, Nodes, Nesting, Fits, Keys, Denoted, StringText;
    MembersTextShape(m, [RIGHT_BRACE] + rest);
    MembersMeasures(m, l);
    assert DenoteMembers(m) == [Entry(Denoted(m.key), p.value)];
  }

  lemma MoreMembersExplain(m: Members, v: ByteString, depth: nat, count: nat, members: seq<Entry<Value>>,
                           l: Limits, p: Parsed, t: ByteString, q: Parsed)
    requires m.MoreMembers? && AllSpace(m.before) && AllSpace(m.afterKey) && AllSpace(m.beforeValue)
    requires AllSpace(m.after) && WellFormedItems(m.key) && |Denoted(m.key)| <= l.maxStringBytes
    requires Explains(m.value, v, depth, count, l, p) && p.rest == m.after + ([COMMA] + t)
    requires MembersExplain(m.rest, t, depth, p.count, members + [Entry(Denoted(m.key), p.value)], l, q)
    ensures MembersExplain(m, m.before + (StringText(m.key) + (m.afterKey + ([COLON] + (m.beforeValue + v)))),
                           depth, count, members, l, q)
  {
    hide Text, Denote, TokensFit, WellFormedJson, Nodes, Nesting, Fits, Keys, Denoted, StringText;
    hide MembersText, FitsMembers, NodesMembers, NestingMembers, DenoteMembers;
    MembersTextShape(m, [RIGHT_BRACE] + q.rest);
    MembersMeasures(m, l);
    var entry := Entry(Denoted(m.key), p.value);
    assert members + [entry] + DenoteMembers(m.rest) == members + DenoteMembers(m);
  }

  // ---------- whole texts ----------

  lemma TokenTextIsAscii(t: Token)
    requires WellFormed(t)
    ensures IsAscii(TokenText(t))
  {
    hide Ascii;
  }

  lemma SpaceIsUtf8(gap: ByteString)
    requires AllSpace(gap)
    ensures ValidUtf8(gap)
  {
    AsciiIsValid(gap);
  }

  lemma Bracketed(open: Byte, s: ByteString, close: Byte)
    requires open < 0x80 && close < 0x80 && ValidUtf8(s)
    ensures ValidUtf8([open] + (s + [close]))
  {
    AsciiIsValid([open]);
    AsciiIsValid([close]);
    ValidConcat(s, [close]);
    ValidConcat([open], s + [close]);
  }

  lemma {:induction false} ItemsTextIsUtf8(items: seq<Item>)
    requires ShapedItems(items)
    ensures ValidUtf8(ItemsText(items))
  {
    hide ValidUtf8, EncodeRune;
    if items == [] {
      AsciiIsValid([]);
    } else {
      ItemsTextIsUtf8(items[1..]);
      ItemTextIsUtf8(items[0]);
      ValidConcat(ItemText(items[0]), ItemsText(items[1..]));
    }
  }

  lemma ItemTextIsUtf8(i: Item)
    requires ShapedItem(i)
    ensures ValidUtf8(ItemText(i))
  {
    hide ValidUtf8, EncodeRune;
    if i.Raw? {
      EncodedIsValid([i.rune], []);
      assert EncodeRunes([i.rune]) + [] == EncodeRune(i.rune);
      AsciiIsValid([]);
    } else {
      AsciiIsValid(ItemText(i));
    }
  }

  /** The text of every tree of the grammar is valid UTF-8. */
  lemma {:induction false} TextIsUtf8(j: Json)
    requires Shaped(j)
    ensures ValidUtf8(Text(j))
    decreases j, 1
  {
    hide ValidUtf8, TokenText, ItemsText, AcceptedNumber;
    match j
    case JNumber(t) =>
      TokenTextIsAscii(t);
      AsciiIsValid(TokenText(t));
    case JString(items) =>
      ItemsTextIsUtf8(items);
      Bracketed(QUOTE, ItemsText(items), QUOTE);
    case JArray(e) =>
      ElemsTextIsUtf8(e);
      Bracketed(LEFT_BRACKET, ElemsText(e), RIGHT_BRACKET);
    case JObject(m) =>
      MembersTextIsUtf8(m);
      Bracketed(LEFT_BRACE, MembersText(m), RIGHT_BRACE);
    case JEmptyArray(gap) => AsciiIsValid(Text(j));
    case JEmptyObject(gap) => AsciiIsValid(Text(j));
    case _ => AsciiIsValid(Text(j));
  }

  lemma {:induction false} ElemsTextIsUtf8(e: Elems)
    requires ShapedElems(e)
    ensures ValidUtf8(ElemsText(e))
    decreases e, 0
  {
    hide ValidUtf8, Text, Shaped, ElemsText;
    var more := ElemsMore(e, []);
    ElemsTextShape(e, []);
    assert ElemsText(e) + [] == ElemsText(e);
    AsciiIsValid([]);
    AsciiIsValid([COMMA]);
    if e.MoreElems? {
      ElemsTextIsUtf8(e.rest);
      assert ElemsText(e.rest) + [] == ElemsText(e.rest);
      ValidConcat([COMMA], ElemsText(e.rest));
    }
    TextIsUtf8(e.value);
    SpaceIsUtf8(e.before);
    SpaceIsUtf8(e.after);
    ValidConcat(e.after, more);
    ValidConcat(Text(e.value), e.after + more);
    ValidConcat(e.before, Text(e.value) + (e.after + more));
  }

  lemma {:induction false} MembersTextIsUtf8(m: Members)
    requires ShapedMembers(m)
    ensures ValidUtf8(MembersText(m))
    decreases m, 0
  {
    hide ValidUtf8, Text, Shaped, MembersText, ItemsText;
    var more := MembersMore(m, []);
    MembersTextShape(m, []);
    assert MembersText(m) + [] == MembersText(m);
    AsciiIsValid([]);
    AsciiIsValid([COMMA]);
    AsciiIsValid([COLON]);
    if m.MoreMembers? {
      MembersTextIsUtf8(m.rest);
      assert MembersText(m.rest) + [] == MembersText(m.rest);
      ValidConcat([COMMA], MembersText(m.rest));
    }
    ItemsTextIsUtf8(m.key);
    Bracketed(QUOTE, ItemsText(m.key), QUOTE);
    TextIsUtf8(m.value);
    SpaceIsUtf8(m.before);
    SpaceIsUtf8(m.afterKey);
    SpaceIsUtf8(m.beforeValue);
    SpaceIsUtf8(m.after);
    var a := m.after + more;
    var b := Text(m.value) + a;
    var c := m.beforeValue + b;
    var d := [COLON] + c;
    var e := m.afterKey + d;
    ValidConcat(m.after, more);
    ValidConcat(Text(m.value), a);
    ValidConcat(m.beforeValue, b);
    ValidConcat([COLON], c);
    ValidConcat(m.afterKey, d);
    ValidConcat(StringText(m.key), e);
    ValidConcat(m.before, StringText(m.key) + e);
  }

  lemma DocumentIsUtf8(d: Document)
    requires ShapedDocument(d)
    ensures ValidUtf8(DocumentText(d))
  {
    hide ValidUtf8, Text;
    TextIsUtf8(d.root);
    SpaceIsUtf8(d.before);
    SpaceIsUtf8(d.after);
    ValidConcat(Text(d.root), d.after);
    ValidConcat(d.before, Text(d.root) + d.after);
  }

  /** `d` is a derivation of `data` within the bounds, with value `v`. */
  ghost predicate Derives(d: Document, data: ByteString, l: Limits, v: Value) {
    WellFormedDocument(d) && DocumentText(d) == data && DocumentFits(d, l) && Denote(d.root) == v
  }

  lemma DerivedIsParsed(d: Document, data: ByteString, l: Limits, v: Value)
    requires Derives(d, data, l, v) && |data| <= l.maxInputSize
    ensures ParseText(data, l) == Ok(v)
  {
    hide ValidUtf8, Text, ParseValue, SkipSpace, Nodes, Nesting, Fits;
    DocumentIsUtf8(d);
    TextHead(d.root, d.after);
    SkipAllSpace(d.before, Text(d.root) + d.after);
    ValueComplete(d.root, d.after, 0, 0, l);
    SkipAllSpace(d.after, []);
    assert d.after + [] == d.after;
  }

  lemma ParsedIsDerived(data: ByteString, l: Limits) returns (d: Document)
    requires ParseText(data, l).Ok?
    ensures |data| <= l.maxInputSize && Derives(d, data, l, ParseText(data, l).value)
  {
    hide ValidUtf8, Text, ParseValue, SkipSpace, Nodes, Nesting, Fits;
    var before := SkippedIsSpace(data);
    var s := SkipSpace(data);
    var p := ParseValue(s, 0, 0, l).value;
    var j := ValueSound(s, 0, 0, l);
    var after := SkippedIsSpace(p.rest);
    d := Document(before, j, after);
    assert after + [] == after;
  }

  /**
   * Acceptance, characterized: a byte string parses to `v` exactly when it is within the size
   * bound and is the text of a well-formed document within the other bounds that denotes `v`.
   */
  lemma AcceptanceExact(data: ByteString, l: Limits, v: Value)
    ensures ParseText(data, l) == Ok(v) <==>
      |data| <= l.maxInputSize && exists d :: Derives(d, data, l, v)
  {
    hide ParseText, Derives;
    if ParseText(data, l) == Ok(v) {
      var d := ParsedIsDerived(data, l);
    }
    if |data| <= l.maxInputSize && exists d :: Derives(d, data, l, v) {
      var d :| Derives(d, data, l, v);
      DerivedIsParsed(d, data, l, v);
    }
  }

  /** The denotation of a text is unique, whatever its bounds. */
  lemma DenotationUnique(d: Document, e: Document)
    requires WellFormedDocument(d) && WellFormedDocument(e) && DocumentText(d) == DocumentText(e)
    ensures Denote(d.root) == Denote(e.root)
  {
    hide Text, DocumentText, Denote, DocumentFits, ParseText;
    var a := DocumentFitsSome(d);
    var b := DocumentFitsSome(e);
    var l := Uniform(Max(a, b));
    DerivedIsParsed(d, DocumentText(d), l, Denote(d.root));
    DerivedIsParsed(e, DocumentText(e), l, Denote(e.root));
  }

  // ---------- character boundaries ----------

  lemma {:induction false} GeneralKeepsBoundaries(s: ByteString, buf: ByteString, maxBytes: nat)
    requires ValidUtf8(s)
    ensures General(s, buf, maxBytes) != Err(InvalidUtf8)
    decreases |s|
  {
    hide DecodeRune, EncodeRune, Escape, ItemText, IsNoncharacter;
    if s != [] && s[0] == BACKSLASH && Escape(s[1..]).Ok? && CheckRune(Escape(s[1..]).value.rune).Ok? {
      var d := Escape(s[1..]).value;
      var i := EscapeSound(s[1..]);
      assert s == [BACKSLASH] + s[1..];
      ItemTextIsUtf8(i);
      ValidConcat(ItemText(i), d.rest);
      GeneralKeepsBoundaries(d.rest, buf + EncodeRune(d.rune), maxBytes);
    } else if s != [] && s[0] != BACKSLASH {
      var (r, size) := DecodeRune(s);
      GeneralKeepsBoundaries(s[size..], buf + s[..size], maxBytes);
    }
    EscapeNotUtf8(s);
  }

  lemma EscapeNotUtf8(s: ByteString)
    ensures s != [] ==> Escape(s[1..]) != Err(InvalidUtf8)
  {
  }

  lemma ScanStringKeepsBoundaries(s: ByteString, maxBytes: nat)
    requires ValidUtf8(s)
    ensures ScanString(s, maxBytes) != Err(InvalidUtf8)
    ensures ScanString(s, maxBytes).Ok? ==> ValidUtf8(ScanString(s, maxBytes).value.rest)
  {
    hide General, ItemsText;
    if s != [] && s[0] == QUOTE {
      var p := PlainRun(s[1..]);
      assert s == [QUOTE] + (s[1..][..p] + s[1..][p..]);
      AsciiIsValid([QUOTE]);
      AsciiIsValid(s[1..][..p]);
      ValidConcat([QUOTE], s[1..][..p] + s[1..][p..]);
      ValidConcat(s[1..][..p], s[1..][p..]);
      GeneralKeepsBoundaries(s[1..][p..], s[1..][..p], maxBytes);
      if ScanString(s, maxBytes).Ok? {
        var items := StringSound(s, maxBytes);
        ItemsTextIsUtf8(items);
        Bracketed(QUOTE, ItemsText(items), QUOTE);
        ValidConcat(StringText(items), ScanString(s, maxBytes).value.rest);
      }
    }
  }

  lemma SpaceKeepsBoundaries(s: ByteString)
    requires ValidUtf8(s)
    ensures ValidUtf8(SkipSpace(s))
  {
    var gap := SkippedIsSpace(s);
    SpaceIsUtf8(gap);
    ValidConcat(gap, SkipSpace(s));
  }

  lemma ByteKeepsBoundaries(s: ByteString)
    requires ValidUtf8(s) && s != [] && s[0] < 0x80
    ensures ValidUtf8(s[1..])
  {
    assert s == [s[0]] + s[1..];
    AsciiIsValid([s[0]]);
    ValidConcat([s[0]], s[1..]);
  }

  /**
   * From a character boundary a value is never rejected for its encoding, and parsing stops
   * at a character boundary: the in-string encoding checks cannot fire on valid input.
   */
  lemma {:induction false} ValueKeepsBoundaries(s: ByteString, depth: nat, count: nat, l: Limits)
    requires ValidUtf8(s) && depth <= l.maxDepth
    ensures ParseValue(s, depth, count, l) != Err(InvalidUtf8)
    ensures ParseValue(s, depth, count, l).Ok? ==> ValidUtf8(ParseValue(s, depth, count, l).value.rest)
    decreases |s|, 3
  {
    hide ValidUtf8, ScanString, ScanNumber, ParseElems, ParseMembers, SkipSpace, Text;
    var r := ParseValue(s, depth, count, l);
    if r.Ok? {
      var j := ValueSound(s, depth, count, l);
      TextIsUtf8(j);
      ValidConcat(Text(j), r.value.rest);
    } else if s != [] && count + 1 <= l.maxValues {
      if s[0] == QUOTE {
        ScanStringKeepsBoundaries(s, l.maxStringBytes);
      } else if s[0] == LEFT_BRACE || s[0] == LEFT_BRACKET {
        ByteKeepsBoundaries(s);
        SpaceKeepsBoundaries(s[1..]);
        if depth + 1 <= l.maxDepth {
          ElemsKeepBoundaries(SkipSpace(s[1..]), depth + 1, count + 1, [], l);
          MembersKeepBoundaries(SkipSpace(s[1..]), depth + 1, count + 1, [], l);
        }
      } else {
        NumberNotUtf8(s, l.maxNumberChars);
      }
    }
  }

  lemma NumberNotUtf8(s: ByteString, maxChars: int)
    ensures ScanNumber(s, maxChars) != Err(InvalidUtf8)
  {
    ScanTokenNotUtf8(s, maxChars);
  }

  lemma ScanTokenNotUtf8(s: ByteString, maxChars: int)
    ensures ScanToken(s, maxChars) != Err(InvalidUtf8)
  {
    forall t, n: nat ensures ScanDigits(t, n, maxChars) != Err(InvalidUtf8) {
      ScanDigitsNotUtf8(t, n, maxChars);
    }
  }

  lemma ScanDigitsNotUtf8(s: ByteString, total: nat, maxChars: int)
    ensures ScanDigits(s, total, maxChars) != Err(InvalidUtf8)
  {
  }

  lemma {:induction false} ElemsKeepBoundaries(
    s: ByteString, depth: nat, count: nat, elems: seq<Value>, l: Limits)
    requires ValidUtf8(s) && depth <= l.maxDepth
    ensures ParseElems(s, depth, count, elems, l) != Err(InvalidUtf8)
    decreases |s|, 4
  {
    hide ValidUtf8, ParseValue, SkipSpace;
    SpaceKeepsBoundaries(s);
    ValueKeepsBoundaries(SkipSpace(s), depth, count, l);
    var r := ParseValue(SkipSpace(s), depth, count, l);
    if r.Ok? {
      SpaceKeepsBoundaries(r.value.rest);
      var t := SkipSpace(r.value.rest);
      if t != [] && t[0] == COMMA {
        ByteKeepsBoundaries(t);
        ElemsKeepBoundaries(t[1..], depth, r.value.count, elems + [r.value.value], l);
      }
    }
  }

  lemma {:induction false} MembersKeepBoundaries(
    s: ByteString, depth: nat, count: nat, members: seq<Entry<Value>>, l: Limits)
    requires ValidUtf8(s) && depth <= l.maxDepth
    ensures ParseMembers(s, depth, count, members, l) != Err(InvalidUtf8)
    decreases |s|, 4
  {
    hide ValidUtf8, ParseValue, SkipSpace, ScanString, Keys;
    SpaceKeepsBoundaries(s);
    ScanStringKeepsBoundaries(SkipSpace(s), l.maxStringBytes);
    var k := ScanString(SkipSpace(s), l.maxStringBytes);
    if k.Ok? {
      SpaceKeepsBoundaries(k.value.rest);
      var t := SkipSpace(k.value.rest);
      if t != [] && t[0] == COLON {
        ByteKeepsBoundaries(t);
        SpaceKeepsBoundaries(t[1..]);
        var v := SkipSpace(t[1..]);
        ValueKeepsBoundaries(v, depth, count, l);
        var r := ParseValue(v, depth, count, l);
        if r.Ok? {
          SpaceKeepsBoundaries(r.value.rest);
          var u := SkipSpace(r.value.rest);
          if u != [] && u[0] == COMMA {
            ByteKeepsBoundaries(u);
            MembersKeepBoundaries(u[1..], depth, r.value.count, members + [Entry(k.value.str, r.value.value)], l);
          }
        }
      }
    }
  }

  /** A text is rejected for its encoding exactly when it is within the size bound and not UTF-8. */
  lemma EncodingRejectedExactly(data: ByteString, l: Limits)
    ensures ParseText(data, l) == Err(InvalidUtf8) <==> |data| <= l.maxInputSize && !ValidUtf8(data)
  {
    hide ValidUtf8, ParseValue, SkipSpace;
    if ValidUtf8(data) {
      SpaceKeepsBoundaries(data);
      ValueKeepsBoundaries(SkipSpace(data), 0, 0, l);
    }
  }
}
