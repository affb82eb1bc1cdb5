/**
 * The JSON grammar (sections 2 to 7 of RFC 8259) as syntax trees that keep every byte:
 * `Text` is the concrete text of a tree and `Denote` the value it denotes.
 */
module Grammar {
  import opened Bytes
  import opened Unicode
  import opened Doubles
  import opened Tokens
  import opened Strings
  import opened Numbers
  import opened Values

  datatype Json =
    | JNull
    | JTrue
    | JFalse
    | JNumber(token: Token)
    | JString(items: seq<Item>)
    | JEmptyArray(gap: ByteString)
    | JArray(elems: Elems)
    | JEmptyObject(gap: ByteString)
    | JObject(members: Members)

  /** ws value ws, separated by commas. */
  datatype Elems =
    | LastElem(before: ByteString, value: Json, after: ByteString)
    | MoreElems(before: ByteString, value: Json, after: ByteString, rest: Elems)

  /** ws string ws : ws value ws, separated by commas. */
  datatype Members =
    | LastMember(before: ByteString, key: seq<Item>, afterKey: ByteString,
                 beforeValue: ByteString, value: Json, after: ByteString)
    | MoreMembers(before: ByteString, key: seq<Item>, afterKey: ByteString,
                  beforeValue: ByteString, value: Json, after: ByteString, rest: Members)

  predicate IsSpace(b: int) {
    b == 0x20 || b == 0x09 || b == 0x0A || b == 0x0D
  }

  ghost predicate AllSpace(s: ByteString) {
    forall i | 0 <= i < |s| :: IsSpace(s[i])
  }

  // ---------- shaped trees: the grammar alone ----------

  ghost predicate Shaped(j: Json) {
    match j
    case JNumber(t) => WellFormed(t)
    case JString(items) => ShapedItems(items)
    case JEmptyArray(gap) => AllSpace(gap)
    case JArray(elems) => ShapedElems(elems)
    case JEmptyObject(gap) => AllSpace(gap)
    case JObject(members) => ShapedMembers(members)
    case _ => true
  }

  ghost predicate ShapedElems(e: Elems) {
    && AllSpace(e.before) && AllSpace(e.after) && Shaped(e.value)
    && (e.MoreElems? ==> ShapedElems(e.rest))
  }

  ghost predicate ShapedMembers(m: Members) {
    && AllSpace(m.before) && AllSpace(m.afterKey) && AllSpace(m.beforeValue) && AllSpace(m.after)
    && ShapedItems(m.key) && Shaped(m.value)
    && (m.MoreMembers? ==> ShapedMembers(m.rest))
  }

  // ---------- well-formed trees: the grammar plus the I-JSON and profile rules ----------

  ghost predicate WellFormedJson(j: Json): (ok: bool)
    ensures ok ==> Shaped(j)
  {
    match j
    case JNumber(t) => WellFormed(t) && AcceptedNumber(t)
    case JString(items) => WellFormedItems(items)
    case JEmptyArray(gap) => AllSpace(gap)
    case JArray(elems) => WellFormedElems(elems)
    case JEmptyObject(gap) => AllSpace(gap)
    case JObject(members) => WellFormedMembers(members) && Distinct(Keys(DenoteMembers(members)))
    case _ => true
  }

  ghost predicate WellFormedElems(e: Elems): (ok: bool)
    ensures ok ==> ShapedElems(e)
  {
    && AllSpace(e.before) && AllSpace(e.after) && WellFormedJson(e.value)
    && (e.MoreElems? ==> WellFormedElems(e.rest))
  }

  ghost predicate WellFormedMembers(m: Members): (ok: bool)
    ensures ok ==> ShapedMembers(m)
  {
    && AllSpace(m.before) && AllSpace(m.afterKey) && AllSpace(m.beforeValue) && AllSpace(m.after)
    && WellFormedItems(m.key) && WellFormedJson(m.value)
    && (m.MoreMembers? ==> WellFormedMembers(m.rest))
  }

  // ---------- denotation ----------

  ghost function Denote(j: Json): Value {
    match j
    case JNull => VNull
    case JTrue => VBool(TRUE_TEXT)
    case JFalse => VBool(FALSE_TEXT)
    case JNumber(t) => VNumber(FloatOf(t))
    case JString(items) => VString(DenoteString(items))
    case JEmptyArray(_) => VArray([])
    case JArray(elems) => VArray(DenoteElems(elems))
    case JEmptyObject(_) => VObject([])
    case JObject(members) => VObject(DenoteMembers(members))
  }

  /** The string a literal denotes, up to its first fault if it has one. */
  ghost function DenoteString(items: seq<Item>): (s: ByteString)
    ensures WellFormedItems(items) ==> s == Denoted(items)
  {
    if items == [] || !WellFormedItem(items[0]) then []
    else EncodeRune(ItemRune(items[0])) + DenoteString(items[1..])
  }

  ghost function DenoteElems(e: Elems): seq<Value> {
    [Denote(e.value)] + if e.MoreElems? then DenoteElems(e.rest) else []
  }

  ghost function DenoteMembers(m: Members): seq<Entry<Value>> {
    [Entry(DenoteString(m.key), Denote(m.value))] + if m.MoreMembers? then DenoteMembers(m.rest) else []
  }

  // ---------- concrete text ----------

  ghost function Text(j: Json): ByteString
    requires Shaped(j)
  {
    match j
    case JNull => NULL_TEXT
    case JTrue => TRUE_TEXT
    case JFalse => FALSE_TEXT
    case JNumber(t) => TokenText(t)
    case JString(items) => StringText(items)
    case JEmptyArray(gap) => [LEFT_BRACKET] + (gap + [RIGHT_BRACKET])
    case JArray(elems) => [LEFT_BRACKET] + (ElemsText(elems) + [RIGHT_BRACKET])
    case JEmptyObject(gap) => [LEFT_BRACE] + (gap + [RIGHT_BRACE])
    case JObject(members) => [LEFT_BRACE] + (MembersText(members) + [RIGHT_BRACE])
  }

  ghost function StringText(items: seq<Item>): ByteString
    requires ShapedItems(items)
  {
    [QUOTE] + (ItemsText(items) + [QUOTE])
  }

  ghost function ElemsText(e: Elems): ByteString
    requires ShapedElems(e)
  {
    e.before + (Text(e.value) + (e.after + if e.MoreElems? then [COMMA] + ElemsText(e.rest) else []))
  }

  ghost function MembersText(m: Members): ByteString
    requires ShapedMembers(m)
  {
    m.before + (StringText(m.key) + (m.afterKey + ([COLON] + (m.beforeValue + (Text(m.value)
      + (m.after + if m.MoreMembers? then [COMMA] + MembersText(m.rest) else []))))))
  }

  /** Every number token of the tree has at most `maxChars` bytes. */
  ghost predicate TokensFit(j: Json, maxChars: int)
    requires Shaped(j)
  {
    match j
    case JNumber(t) => |TokenText(t)| <= maxChars
    case JArray(elems) => TokensFitElems(elems, maxChars)
    case JObject(members) => TokensFitMembers(members, maxChars)
    case _ => true
  }

  ghost predicate TokensFitElems(e: Elems, maxChars: int)
    requires ShapedElems(e)
  {
    TokensFit(e.value, maxChars) && (e.MoreElems? ==> TokensFitElems(e.rest, maxChars))
  }

  ghost predicate TokensFitMembers(m: Members, maxChars: int)
    requires ShapedMembers(m)
  {
    TokensFit(m.value, maxChars) && (m.MoreMembers? ==> TokensFitMembers(m.rest, maxChars))
  }

  /** JSON-text = ws value ws */
  datatype Document = Document(before: ByteString, root: Json, after: ByteString)

  ghost predicate ShapedDocument(d: Document) {
    AllSpace(d.before) && Shaped(d.root) && AllSpace(d.after)
  }

  ghost predicate WellFormedDocument(d: Document): (ok: bool)
    ensures ok ==> ShapedDocument(d)
  {
    AllSpace(d.before) && WellFormedJson(d.root) && AllSpace(d.after)
  }

  ghost function DocumentText(d: Document): ByteString
    requires ShapedDocument(d)
  {
    d.before + (Text(d.root) + d.after)
  }

  /** The tree is within all bounds but the input size. */
  ghost predicate DocumentFits(d: Document, l: Limits)
    requires ShapedDocument(d)
  {
    var v := Denote(d.root);
    && Nesting(v) <= l.maxDepth && Nodes(v) <= l.maxValues && Fits(v, l)
    && TokensFit(d.root, l.maxNumberChars)
  }

  // ---------- values of well-formed trees ----------

  lemma {:induction false} DenoteIsValid(j: Json)
    requires WellFormedJson(j)
    ensures ValidValue(Denote(j))
  {
    match j
    case JString(items) => DenotedIsClean(items);
    case JArray(elems) => DenoteElemsIsValid(elems);
    case JObject(members) => DenoteMembersIsValid(members);
    case _ =>
  }

  lemma {:induction false} DenoteElemsIsValid(e: Elems)
    requires WellFormedElems(e)
    ensures ValidAll(DenoteElems(e))
  {
    DenoteIsValid(e.value);
    if e.MoreElems? {
      DenoteElemsIsValid(e.rest);
      assert DenoteElems(e)[1..] == DenoteElems(e.rest);
    }
  }

  lemma {:induction false} DenoteMembersIsValid(m: Members)
    requires WellFormedMembers(m)
    ensures ValidMembers(DenoteMembers(m))
  {
    DenotedIsClean(m.key);
    DenoteIsValid(m.value);
    if m.MoreMembers? {
      DenoteMembersIsValid(m.rest);
      assert DenoteMembers(m)[1..] == DenoteMembers(m.rest);
    }
  }

  // ---------- bounds that are wide enough ----------

  lemma {:induction false} TokensFitSome(j: Json) returns (n: nat)
    requires Shaped(j)
    ensures forall k | k >= n :: TokensFit(j, k)
  {
    match j
    case JNumber(t) => n := |TokenText(t)|;
    case JArray(elems) => n := TokensFitSomeElems(elems);
    case JObject(members) => n := TokensFitSomeMembers(members);
    case _ => n := 0;
  }

  lemma {:induction false} TokensFitSomeElems(e: Elems) returns (n: nat)
    requires ShapedElems(e)
    ensures forall k | k >= n :: TokensFitElems(e, k)
  {
    n := TokensFitSome(e.value);
    if e.MoreElems? {
      var m := TokensFitSomeElems(e.rest);
      n := Max(n, m);
    }
  }

  lemma {:induction false} TokensFitSomeMembers(m: Members) returns (n: nat)
    requires ShapedMembers(m)
    ensures forall k | k >= n :: TokensFitMembers(m, k)
  {
    n := TokensFitSome(m.value);
    if m.MoreMembers? {
      var k := TokensFitSomeMembers(m.rest);
      n := Max(n, k);
    }
  }

  /** Every document is within all uniform bounds from some size on. */
  lemma DocumentFitsSome(d: Document) returns (n: nat)
    requires ShapedDocument(d)
    ensures forall k: nat | k >= n :: DocumentFits(d, Uniform(k)) && |DocumentText(d)| <= k
  {
    hide Text, Nodes, Nesting, Fits, TokensFit;
    var v := Denote(d.root);
    var a := FitsSome(v);
    var b := TokensFitSome(d.root);
    n := Max(Max(a, b), Max(Max(Nodes(v), Nesting(v)), |DocumentText(d)|));
    forall k: nat | k >= n ensures DocumentFits(d, Uniform(k)) && |DocumentText(d)| <= k {
      FitsMonotone(v, a, k);
    }
  }
}
