/**
 * Canonical values, their canonical text, and the serializer as a function: emission
 * follows the code, and on valid values it writes the text of one canonical tree.
 */
module Canonical {
  import opened Bytes
  import opened Unicode
  import opened Doubles
  import opened Tokens
  import opened Strings
  import opened Numbers
  import opened Values
  import opened Ordering
  import opened Grammar
  import opened NumberText
  import opened Layout

  // ---------- emission ----------

  /** `done` followed by what is still to be written, unless that fails. */
  function Then(done: ByteString, r: Result<ByteString>): Result<ByteString> {
    match r
    case Err(e) => Err(e)
    case Ok(t) => Ok(done + t)
  }

  /** The text of a value; its failure is the first one met. */
  ghost function Emit(v: Value): Result<ByteString> {
    match v
    case VNull => Ok(NULL_TEXT)
    case VBool(text) => Ok(text)
    case VNumber(num) => FormatSpec(num)
    case VString(s) => Ok(Quoted(s))
    case VArray(elems) => Then([LEFT_BRACKET], EmitElems(elems, true))
    case VObject(members) => Then([LEFT_BRACE], EmitSorted(Sort(EmitMembers(members)), true))
    case VUnknown(_) => Err(InternalError)
  }

  ghost function Separator(first: bool): ByteString {
    if first then [] else [COMMA]
  }

  /** The elements from the next one on, and the closing bracket. */
  ghost function EmitElems(es: seq<Value>, first: bool): Result<ByteString> {
    if es == [] then Ok([RIGHT_BRACKET])
    else
      match Emit(es[0])
      case Err(e) => Err(e)
      case Ok(t) => Then(Separator(first) + t, EmitElems(es[1..], false))
  }

  ghost function EmitMembers(ms: seq<Entry<Value>>): seq<Entry<Result<ByteString>>> {
    if ms == [] then [] else [Entry(ms[0].key, Emit(ms[0].value))] + EmitMembers(ms[1..])
  }

  /** Members already in order, from the next one on, and the closing brace. */
  ghost function EmitSorted(es: seq<Entry<Result<ByteString>>>, first: bool): Result<ByteString> {
    if es == [] then Ok([RIGHT_BRACE])
    else
      match es[0].value
      case Err(e) => Err(e)
      case Ok(t) => Then(Separator(first) + (Quoted(es[0].key) + ([COLON] + t)), EmitSorted(es[1..], false))
  }

  // ---------- canonical values ----------

  /** Members sorted at every level, and -0 replaced by 0. */
  ghost function Canon(v: Value): Value {
    match v
    case VNumber(Finite(_, 0)) => VNumber(Finite(false, 0))
    case VArray(elems) => VArray(CanonAll(elems))
    case VObject(members) => VObject(Sort(CanonMembers(members)))
    case _ => v
  }

  ghost function CanonAll(es: seq<Value>): seq<Value> {
    if es == [] then [] else [Canon(es[0])] + CanonAll(es[1..])
  }

  ghost function CanonMembers(ms: seq<Entry<Value>>): seq<Entry<Value>> {
    if ms == [] then [] else [Entry(ms[0].key, Canon(ms[0].value))] + CanonMembers(ms[1..])
  }

  /** Equal up to the order of members, at every level, and the sign of zero. */
  ghost predicate Equivalent(v: Value, w: Value) {
    match v
    case VNumber(x) => w.VNumber? && (x == w.num || (x.Finite? && w.num.Finite? && x.magnitude == 0 == w.num.magnitude))
    case VArray(elems) => w.VArray? && EquivalentAll(elems, w.elems)
    case VObject(members) =>
      w.VObject? && MatchedIn(members, w.members) && MatchedFrom(members, w.members)
    case _ => v == w
  }

  /** Every member of `ms` has a match in `ns`. */
  ghost predicate MatchedIn(ms: seq<Entry<Value>>, ns: seq<Entry<Value>>) {
    forall m | m in ms :: exists n | n in ns :: Matches(m, n)
  }

  /** Every member of `ns` is matched from `ms`. */
  ghost predicate MatchedFrom(ms: seq<Entry<Value>>, ns: seq<Entry<Value>>) {
    forall n | n in ns :: exists m | m in ms :: Matches(m, n)
  }

  ghost predicate Matches(m: Entry<Value>, n: Entry<Value>) {
    m.key == n.key && Equivalent(m.value, n.value)
  }

  /** Members with one canonical form. */
  ghost predicate SameCanon(m: Entry<Value>, n: Entry<Value>) {
    m.key == n.key && Canon(m.value) == Canon(n.value)
  }

  ghost predicate EquivalentAll(es: seq<Value>, fs: seq<Value>) {
    |es| == |fs| && forall i | 0 <= i < |es| :: Equivalent(es[i], fs[i])
  }

  // ---------- the canonical tree ----------

  ghost function CanonJson(v: Value): Json {
    match v
    case VNull => JNull
    case VBool(text) => if text == TRUE_TEXT then JTrue else JFalse
    case VNumber(num) =>
      if num.Finite? then JNumber(NumberToken(num.negative, num.magnitude)) else JNull
    case VString(s) => JString(CanonicalItems(Runes(s)))
    case VArray(elems) => if elems == [] then JEmptyArray([]) else JArray(CanonElems(elems))
    case VObject(members) =>
      if members == [] then JEmptyObject([]) else JObject(ToMembers(Sort(CanonEntries(members))))
    case VUnknown(_) => JNull
  }

  ghost function CanonElems(es: seq<Value>): Elems
    requires es != []
  {
    if |es| == 1 then LastElem([], CanonJson(es[0]), [])
    else MoreElems([], CanonJson(es[0]), [], CanonElems(es[1..]))
  }

  ghost function CanonEntries(ms: seq<Entry<Value>>): seq<Entry<Json>> {
    if ms == [] then [] else [Entry(ms[0].key, CanonJson(ms[0].value))] + CanonEntries(ms[1..])
  }

  ghost function ToMembers(es: seq<Entry<Json>>): Members {
    if es == [] then LastMember([], [], [], [], JNull, [])
    else
      var key := CanonicalItems(Runes(es[0].key));
      if |es| == 1 then LastMember([], key, [], [], es[0].value, [])
      else MoreMembers([], key, [], [], es[0].value, [], ToMembers(es[1..]))
  }

  // ---------- entry-wise forms ----------

  lemma {:induction false} EntrywiseForms(ms: seq<Entry<Value>>)
    ensures EmitMembers(ms) == MapEntries(Emit, ms)
    ensures CanonMembers(ms) == MapEntries(Canon, ms)
    ensures CanonEntries(ms) == MapEntries(CanonJson, ms)
  {
    hide Emit, Canon, CanonJson;
    if ms != [] {
      EntrywiseForms(ms[1..]);
    }
  }

  /** Emission, canonical values and canonical trees all visit members in sorted order. */
  lemma SortedForms(ms: seq<Entry<Value>>)
    ensures Sort(EmitMembers(ms)) == MapEntries(Emit, Sort(ms))
    ensures Sort(CanonMembers(ms)) == MapEntries(Canon, Sort(ms))
    ensures Sort(CanonEntries(ms)) == MapEntries(CanonJson, Sort(ms))
  {
    EntrywiseForms(ms);
    SortMap(Emit, ms);
    SortMap(Canon, ms);
    SortMap(CanonJson, ms);
  }

  lemma {:induction false} ValidMembersAre(ms: seq<Entry<Value>>, m: Entry<Value>)
    requires ValidMembers(ms) && m in ms
    ensures CleanString(m.key) && ValidValue(m.value)
  {
    if m != ms[0] {
      ValidMembersAre(ms[1..], m);
    }
  }

  lemma {:induction false} ValidElemsAre(es: seq<Value>, e: Value)
    requires ValidAll(es) && e in es
    ensures ValidValue(e)
  {
    if e != es[0] {
      ValidElemsAre(es[1..], e);
    }
  }

  lemma ValidIsSortable(ms: seq<Entry<Value>>)
    requires ValidMembers(ms) && Distinct(Keys(ms))
    ensures Sortable(ms) && StrictlySorted(Sort(ms))
  {
    hide ValidUtf8;
    forall i | 0 <= i < |ms| ensures ValidUtf8(ms[i].key) {
      ValidMembersAre(ms, ms[i]);
    }
    SortSorted(ms);
  }

  lemma SortedIsDistinct<T>(es: seq<Entry<T>>)
    requires StrictlySorted(es) && forall i | 0 <= i < |es| :: ValidUtf8(es[i].key)
    ensures Distinct(Keys(es))
  {
    hide ValidUtf8, KeyLess;
    forall i, j | 0 <= i < j < |es| ensures Keys(es)[i] != Keys(es)[j] {
      KeyOrderStrictTotal(es[i].key, es[j].key, es[i].key);
    }
  }

  // ---------- emission writes the canonical tree ----------

  /** The canonical tree is well-formed, denotes the canonical value, and its text is what is emitted. */
  ghost predicate Correct(v: Value) {
    && WellFormedJson(CanonJson(v))
    && Denote(CanonJson(v)) == Canon(v)
    && Emit(v) == Ok(Text(CanonJson(v)))
  }

  lemma {:induction false} CanonCorrect(v: Value)
    requires ValidValue(v)
    ensures Correct(v)
  {
    hide CleanString;
    match v
    case VArray(elems) =>
      forall e | e in elems ensures Correct(e) {
        ValidElemsAre(elems, e);
        CanonCorrect(e);
      }
      ArrayCorrect(elems);
    case VObject(members) =>
      forall m | m in members ensures Correct(m.value) && CleanString(m.key) {
        ValidMembersAre(members, m);
        CanonCorrect(m.value);
      }
      ObjectCorrect(members);
    case VNumber(num) => NumberCorrect(num);
    case VString(s) => StringCorrect(s);
    case _ =>
  }

  lemma NumberCorrect(num: Float)
    requires num.Finite?
    ensures Correct(VNumber(num))
  {
    hide TokenText, AbsoluteValue, Round;
    FormattedTokenReadsBack(num.negative, num.magnitude);
  }

  lemma StringCorrect(s: ByteString)
    requires CleanString(s)
    ensures Correct(VString(s))
  {
    hide Escaped, ItemsText, Denoted, CleanString;
    EscapedIsCanonical(s);
    var items := CanonicalItems(Runes(s));
    assert Quoted(s) == StringText(items);
  }

  lemma ArrayCorrect(es: seq<Value>)
    requires forall e | e in es :: Correct(e)
    ensures Correct(VArray(es))
  {
    hide Correct;
    if es == [] {
      EmptyArrayCorrect();
    } else {
      ElemsCorrect(es, true);
      WrapArray(es);
    }
  }

  lemma EmptyArrayCorrect()
    ensures Correct(VArray([]))
  {
    assert [] + [RIGHT_BRACKET] == [RIGHT_BRACKET];
  }

  lemma WrapArray(es: seq<Value>)
    requires es != [] && ElemsWritten(es, true)
    ensures Correct(VArray(es))
  {
    hide EmitElems, CanonElems, ElemsText, DenoteElems, CanonAll, WellFormedElems;
    var t := ElemsText(CanonElems(es));
    assert [] + (t + [RIGHT_BRACKET]) == t + [RIGHT_BRACKET];
  }

  /** The element list written from a point of the loop on. */
  ghost predicate ElemsWritten(es: seq<Value>, first: bool)
    requires es != []
  {
    var c := CanonElems(es);
    && WellFormedElems(c) && DenoteElems(c) == CanonAll(es)
    && EmitElems(es, first) == Ok(Separator(first) + (ElemsText(c) + [RIGHT_BRACKET]))
  }

  lemma {:induction false} ElemsCorrect(es: seq<Value>, first: bool)
    requires es != [] && forall e | e in es :: Correct(e)
    ensures ElemsWritten(es, first)
  {
    hide Correct, ElemsWritten;
    assert es[0] in es;
    if |es| == 1 {
      LastElemWritten(es, first);
    } else {
      ElemsCorrect(es[1..], false);
      MoreElemsWritten(es, first);
    }
  }

  lemma LastElemWritten(es: seq<Value>, first: bool)
    requires |es| == 1 && Correct(es[0])
    ensures ElemsWritten(es, first)
  {
    hide Text, Denote, Emit, Canon, CanonJson, WellFormedJson, Shaped;
    var t := Text(CanonJson(es[0]));
    assert es[1..] == [];
    assert CanonAll(es) == [Canon(es[0])];
    assert ElemsText(CanonElems(es)) == t;
    assert EmitElems(es[1..], false) == Ok([RIGHT_BRACKET]);
    AppendAssociative(Separator(first), t, [RIGHT_BRACKET]);
  }

  lemma MoreElemsWritten(es: seq<Value>, first: bool)
    requires |es| > 1 && Correct(es[0]) && ElemsWritten(es[1..], false)
    ensures ElemsWritten(es, first)
  {
    hide Text, Denote, Emit, Canon, CanonJson, WellFormedJson, Shaped;
    var t := Text(CanonJson(es[0]));
    var rest, close := ElemsText(CanonElems(es[1..])), [RIGHT_BRACKET];
    assert ElemsText(CanonElems(es)) == t + ([COMMA] + rest);
    AppendAssociative(Separator(first), t, [COMMA] + (rest + close));
    AppendAssociative(t, [COMMA] + rest, close);
    AppendAssociative([COMMA], rest, close);
  }

  lemma ObjectCorrect(ms: seq<Entry<Value>>)
    requires Distinct(Keys(ms)) && ValidMembers(ms)
    requires forall m | m in ms :: Correct(m.value) && CleanString(m.key)
    ensures Correct(VObject(ms))
  {
    hide Correct, CleanString, ValidUtf8;
    if ms == [] {
      EmptyObjectCorrect();
    } else {
      var sorted := Sort(ms);
      SortElements(ms);
      ValidIsSortable(ms);
      forall m | m in sorted ensures Correct(m.value) && CleanString(m.key) {
        assert m in ms;
      }
      MembersCorrect(sorted, true);
      SortedForms(ms);
      forall i | 0 <= i < |sorted| ensures ValidUtf8(sorted[i].key) {
        assert sorted[i] in ms;
        ValidKey(sorted[i].key);
      }
      SortedIsDistinct(sorted);
      WrapObject(ms, sorted);
    }
  }

  lemma ValidKey(key: ByteString)
    requires CleanString(key)
    ensures ValidUtf8(key)
  {
  }

  lemma EmptyObjectCorrect()
    ensures Correct(VObject([]))
  {
    assert [] + [RIGHT_BRACE] == [RIGHT_BRACE];
    assert Sort(EmitMembers([])) == [];
  }

  lemma WrapObject(ms: seq<Entry<Value>>, sorted: seq<Entry<Value>>)
    requires ms != [] && sorted != [] && MembersWritten(sorted, true) && Distinct(Keys(sorted))
    requires Sort(EmitMembers(ms)) == MapEntries(Emit, sorted)
    requires Sort(CanonMembers(ms)) == MapEntries(Canon, sorted)
    requires Sort(CanonEntries(ms)) == MapEntries(CanonJson, sorted)
    ensures Correct(VObject(ms))
  {
    hide EmitSorted, ToMembers, MembersText, DenoteMembers, Sort, EmitMembers, CanonMembers, CanonEntries;
    hide WellFormedMembers, MapEntries;
    var m := ToMembers(MapEntries(CanonJson, sorted));
    assert Keys(MapEntries(Canon, sorted)) == Keys(sorted);
    var t := MembersText(m);
    assert [] + (t + [RIGHT_BRACE]) == t + [RIGHT_BRACE];
  }

  /** The member list written from a point of the loop on. */
  ghost predicate MembersWritten(sorted: seq<Entry<Value>>, first: bool)
    requires sorted != []
  {
    var m := ToMembers(MapEntries(CanonJson, sorted));
    && WellFormedMembers(m) && DenoteMembers(m) == MapEntries(Canon, sorted)
    && EmitSorted(MapEntries(Emit, sorted), first) == Ok(Separator(first) + (MembersText(m) + [RIGHT_BRACE]))
  }

  lemma {:induction false} MembersCorrect(sorted: seq<Entry<Value>>, first: bool)
    requires sorted != [] && forall m | m in sorted :: Correct(m.value) && CleanString(m.key)
    ensures MembersWritten(sorted, first)
  {
    hide Correct, CleanString, MembersWritten;
    assert sorted[0] in sorted;
    if |sorted| == 1 {
      LastWritten(sorted, first);
    } else {
      MembersCorrect(sorted[1..], false);
      MoreWritten(sorted, first);
    }
  }

  lemma LastWritten(sorted: seq<Entry<Value>>, first: bool)
    requires |sorted| == 1 && Correct(sorted[0].value) && CleanString(sorted[0].key)
    ensures MembersWritten(sorted, first)
  {
    hide Text, Denote, Emit, Canon, CanonJson, WellFormedJson, CleanString, Shaped;
    hide StringText, WellFormedItems, ShapedItems, Denoted, DenoteString, CanonicalItems, Runes, Quoted;
    var m := sorted[0];
    KeyCorrect(m.key);
    var k, t := StringText(CanonicalItems(Runes(m.key))), Text(CanonJson(m.value));
    var entries := MapEntries(CanonJson, sorted);
    assert entries[0] == Entry(m.key, CanonJson(m.value));
    assert sorted[1..] == [];
    assert MapEntries(Canon, sorted) == [Entry(m.key, Canon(m.value))];
    assert MembersText(ToMembers(entries)) == k + ([COLON] + t);
    assert EmitSorted(MapEntries(Emit, sorted[1..]), false) == Ok([RIGHT_BRACE]);
    AppendAssociative(Separator(first), k + ([COLON] + t), [RIGHT_BRACE]);
  }

  lemma MoreWritten(sorted: seq<Entry<Value>>, first: bool)
    requires |sorted| > 1 && Correct(sorted[0].value) && CleanString(sorted[0].key)
    requires MembersWritten(sorted[1..], false)
    ensures MembersWritten(sorted, first)
  {
    hide Text, Denote, Emit, Canon, CanonJson, WellFormedJson, CleanString, Shaped;
    hide StringText, WellFormedItems, ShapedItems, Denoted, DenoteString, CanonicalItems, Runes, Quoted;
    var m := sorted[0];
    KeyCorrect(m.key);
    var k, t := StringText(CanonicalItems(Runes(m.key))), Text(CanonJson(m.value));
    var entries := MapEntries(CanonJson, sorted);
    assert entries[0] == Entry(m.key, CanonJson(m.value));
    assert entries[1..] == MapEntries(CanonJson, sorted[1..]);
    assert MapEntries(Emit, sorted)[1..] == MapEntries(Emit, sorted[1..]);
    var rest := MembersText(ToMembers(MapEntries(CanonJson, sorted[1..])));
    assert MembersText(ToMembers(entries)) == k + ([COLON] + (t + ([COMMA] + rest)));
    Regrouped(Separator(first), k, t, rest, [RIGHT_BRACE]);
  }

  lemma KeyCorrect(key: ByteString)
    requires CleanString(key)
    ensures var items := CanonicalItems(Runes(key));
      WellFormedItems(items) && Quoted(key) == StringText(items) && Denoted(items) == key
  {
    hide Escaped, ItemsText, Denoted, CleanString, CanonicalItems, Runes, WellFormedItems;
    EscapedIsCanonical(key);
  }

  lemma Regrouped(a: ByteString, k: ByteString, t: ByteString, rest: ByteString, close: ByteString)
    ensures (a + (k + ([COLON] + t))) + ([COMMA] + (rest + close))
         == a + ((k + ([COLON] + (t + ([COMMA] + rest)))) + close)
  {
  }

  // ---------- measures of canonical values ----------

  lemma {:induction false} CanonMeasures(v: Value, l: Limits)
    ensures Nodes(Canon(v)) == Nodes(v) && Nesting(Canon(v)) == Nesting(v)
    ensures Fits(Canon(v), l) <==> Fits(v, l)
  {
    match v
    case VArray(elems) => CanonAllMeasures(elems, l);
    case VObject(members) =>
      CanonMembersMeasures(members, l);
      SortMeasures(CanonMembers(members), l);
    case _ =>
  }

  lemma {:induction false} CanonAllMeasures(es: seq<Value>, l: Limits)
    ensures |CanonAll(es)| == |es|
    ensures NodesAll(CanonAll(es)) == NodesAll(es) && NestingAll(CanonAll(es)) == NestingAll(es)
    ensures FitsAll(CanonAll(es), l) <==> FitsAll(es, l)
  {
    if es != [] {
      CanonMeasures(es[0], l);
      CanonAllMeasures(es[1..], l);
      assert CanonAll(es)[1..] == CanonAll(es[1..]);
    }
  }

  lemma {:induction false} CanonMembersMeasures(ms: seq<Entry<Value>>, l: Limits)
    ensures |CanonMembers(ms)| == |ms|
    ensures NodesMembers(CanonMembers(ms)) == NodesMembers(ms)
    ensures NestingMembers(CanonMembers(ms)) == NestingMembers(ms)
    ensures FitsMembers(CanonMembers(ms), l) <==> FitsMembers(ms, l)
  {
    if ms != [] {
      CanonMeasures(ms[0].value, l);
      CanonMembersMeasures(ms[1..], l);
      assert CanonMembers(ms)[1..] == CanonMembers(ms[1..]);
    }
  }

  lemma {:induction false} InsertMeasures(e: Entry<Value>, ms: seq<Entry<Value>>, l: Limits)
    ensures |Insert(e, ms)| == |ms| + 1
    ensures NodesMembers(Insert(e, ms)) == Nodes(e.value) + NodesMembers(ms)
    ensures NestingMembers(Insert(e, ms)) == Max(Nesting(e.value), NestingMembers(ms))
    ensures FitsMembers(Insert(e, ms), l) <==>
      |e.key| <= l.maxStringBytes && Fits(e.value, l) && FitsMembers(ms, l)
  {
    hide KeyLess, Nodes, Nesting, Fits;
    var out := Insert(e, ms);
    if ms == [] || KeyLess(e.key, ms[0].key) {
      assert out[0] == e && out[1..] == ms;
    } else {
      InsertMeasures(e, ms[1..], l);
      assert out[0] == ms[0] && out[1..] == Insert(e, ms[1..]);
    }
  }

  /** Sorting changes no measure. */
  lemma {:induction false} SortMeasures(ms: seq<Entry<Value>>, l: Limits)
    ensures |Sort(ms)| == |ms|
    ensures NodesMembers(Sort(ms)) == NodesMembers(ms) && NestingMembers(Sort(ms)) == NestingMembers(ms)
    ensures FitsMembers(Sort(ms), l) <==> FitsMembers(ms, l)
  {
    hide Insert, Nodes, Nesting, Fits;
    if ms != [] {
      SortMeasures(ms[1..], l);
      InsertMeasures(ms[0], Sort(ms[1..]), l);
    }
  }

  // ---------- number tokens ----------

  /** Every number in the tree is formatted in at most `maxChars` bytes. */
  ghost predicate NumbersFit(v: Value, maxChars: int) {
    match v
    case VNumber(num) => FormatSpec(num).Ok? ==> |FormatSpec(num).value| <= maxChars
    case VArray(elems) => forall e | e in elems :: NumbersFit(e, maxChars)
    case VObject(members) => forall m | m in members :: NumbersFit(m.value, maxChars)
    case _ => true
  }

  /** No number needs more than 25 bytes. */
  lemma {:induction false} NumbersFitIn25(v: Value, maxChars: int)
    requires maxChars >= MAX_NUMBER_TEXT
    ensures NumbersFit(v, maxChars)
  {
    hide TokenText;
    match v
    case VNumber(num) =>
      if num.Finite? {
        FormattedLength(num.negative, num.magnitude);
      }
    case VArray(elems) =>
      forall e | e in elems ensures NumbersFit(e, maxChars) {
        NumbersFitIn25(e, maxChars);
      }
    case VObject(members) =>
      forall m | m in members ensures NumbersFit(m.value, maxChars) {
        NumbersFitIn25(m.value, maxChars);
      }
    case _ =>
  }

  /** The tokens of the canonical tree are within a bound exactly when the formatted numbers are. */
  ghost predicate TokensAreNumbers(v: Value, maxChars: int) {
    WellFormedJson(CanonJson(v)) && (TokensFit(CanonJson(v), maxChars) <==> NumbersFit(v, maxChars))
  }

  lemma {:induction false} CanonTokensFit(v: Value, maxChars: int)
    requires ValidValue(v)
    ensures TokensAreNumbers(v, maxChars)
  {
    hide CleanString, TokenText, Canon, Emit, Text, Denote, CanonElems, ToMembers, Sort, CanonEntries, Keys;
    hide TokensFitElems, TokensFitMembers, WellFormedElems, WellFormedMembers;
    CanonCorrect(v);
    match v
    case VArray(elems) =>
      forall e | e in elems ensures TokensAreNumbers(e, maxChars) {
        ValidElemsAre(elems, e);
        CanonTokensFit(e, maxChars);
      }
      ArrayTokensFit(elems, maxChars);
    case VObject(members) =>
      forall m | m in members ensures TokensAreNumbers(m.value, maxChars) {
        ValidMembersAre(members, m);
        CanonTokensFit(m.value, maxChars);
      }
      ObjectTokensFit(members, maxChars);
    case _ =>
  }

  lemma ArrayTokensFit(es: seq<Value>, maxChars: int)
    requires WellFormedJson(CanonJson(VArray(es)))
    requires forall e | e in es :: TokensAreNumbers(e, maxChars)
    ensures TokensAreNumbers(VArray(es), maxChars)
  {
    hide CanonElems, TokensFitElems, WellFormedElems;
    if es != [] {
      CanonElemsFit(es, maxChars);
    }
  }

  lemma ObjectTokensFit(ms: seq<Entry<Value>>, maxChars: int)
    requires WellFormedJson(CanonJson(VObject(ms)))
    requires forall m | m in ms :: TokensAreNumbers(m.value, maxChars)
    ensures TokensAreNumbers(VObject(ms), maxChars)
  {
    hide ToMembers, TokensFitMembers, WellFormedMembers, Sort, CanonEntries, TokensAreNumbers;
    if ms != [] {
      var sorted := Sort(ms);
      SortedForms(ms);
      SortElements(ms);
      forall m | m in sorted ensures TokensAreNumbers(m.value, maxChars) {
        assert m in ms;
      }
      WrappedMembersFit(ms, sorted, maxChars);
    } else {
      NoMembersFit(maxChars);
    }
  }

  lemma NoMembersFit(maxChars: int)
    ensures TokensAreNumbers(VObject([]), maxChars)
  {
  }

  lemma WrappedMembersFit(ms: seq<Entry<Value>>, sorted: seq<Entry<Value>>, maxChars: int)
    requires ms != [] && WellFormedJson(CanonJson(VObject(ms))) && SameElements(sorted, ms)
    requires Sort(CanonEntries(ms)) == MapEntries(CanonJson, sorted)
    requires forall m | m in sorted :: TokensAreNumbers(m.value, maxChars)
    ensures TokensAreNumbers(VObject(ms), maxChars)
  {
    hide ToMembers, TokensFitMembers, WellFormedMembers, Sort, CanonEntries, MapEntries, TokensFit, NumbersFit;
    assert ms[0] in sorted;
    ToMembersFit(sorted, maxChars);
    assert NumbersFit(VObject(ms), maxChars) <==> forall m | m in sorted :: NumbersFit(m.value, maxChars) by {
      ObjectNumbersFit(ms, sorted, maxChars);
    }
    ObjectTokens(ms, maxChars);
  }

  lemma ObjectNumbersFit(ms: seq<Entry<Value>>, sorted: seq<Entry<Value>>, maxChars: int)
    requires SameElements(sorted, ms)
    ensures NumbersFit(VObject(ms), maxChars) <==> forall m | m in sorted :: NumbersFit(m.value, maxChars)
  {
  }

  lemma ObjectTokens(ms: seq<Entry<Value>>, maxChars: int)
    requires ms != [] && WellFormedJson(CanonJson(VObject(ms)))
    ensures var m := ToMembers(Sort(CanonEntries(ms)));
      WellFormedMembers(m) && (TokensFit(CanonJson(VObject(ms)), maxChars) <==> TokensFitMembers(m, maxChars))
  {
    hide ToMembers, TokensFitMembers, WellFormedMembers, Sort, CanonEntries;
  }

  lemma {:induction false} CanonElemsFit(es: seq<Value>, maxChars: int)
    requires es != [] && WellFormedElems(CanonElems(es))
    requires forall e | e in es :: TokensAreNumbers(e, maxChars)
    ensures TokensFitElems(CanonElems(es), maxChars) <==> forall e | e in es :: NumbersFit(e, maxChars)
  {
    hide TokensFit, NumbersFit, CanonJson, WellFormedJson;
    assert TokensAreNumbers(es[0], maxChars);
    assert forall e :: e in es <==> e == es[0] || e in es[1..];
    if |es| > 1 {
      CanonElemsFit(es[1..], maxChars);
    }
  }

  lemma {:induction false} ToMembersFit(ms: seq<Entry<Value>>, maxChars: int)
    requires ms != [] && WellFormedMembers(ToMembers(MapEntries(CanonJson, ms)))
    requires forall m | m in ms :: TokensAreNumbers(m.value, maxChars)
    ensures TokensFitMembers(ToMembers(MapEntries(CanonJson, ms)), maxChars) <==>
      forall m | m in ms :: NumbersFit(m.value, maxChars)
  {
    hide TokensFit, NumbersFit, CanonJson, WellFormedJson, CanonicalItems, Runes;
    assert TokensAreNumbers(ms[0].value, maxChars);
    assert forall m :: m in ms <==> m == ms[0] || m in ms[1..];
    assert MapEntries(CanonJson, ms)[1..] == MapEntries(CanonJson, ms[1..]);
    if |ms| > 1 {
      ToMembersFit(ms[1..], maxChars);
    }
  }

  // ---------- equivalence ----------

  /** Equivalent valid values have one canonical value. */
  lemma {:induction false} EquivalentHaveOneCanon(v: Value, w: Value)
    requires ValidValue(v) && ValidValue(w) && Equivalent(v, w)
    ensures Canon(v) == Canon(w)
  {
    hide CleanString, Distinct, Keys, MatchedIn, MatchedFrom, Matches, SameCanon, Sort, ValidMembers, CanonMembers;
    match v
    case VArray(elems) =>
      forall i | 0 <= i < |elems| ensures Canon(elems[i]) == Canon(w.elems[i]) {
        ValidElemsAre(elems, elems[i]);
        ValidElemsAre(w.elems, w.elems[i]);
        EquivalentHaveOneCanon(elems[i], w.elems[i]);
      }
      PointwiseCanon(elems, w.elems);
    case VObject(ms) =>
      forall m, n | m in ms && n in w.members && Matches(m, n) ensures SameCanon(m, n) {
        MatchesHaveOneCanon(ms, m, w.members, n);
      }
      MatchingMembers(ms, w.members);
    case _ =>
  }

  lemma {:induction false} MatchesHaveOneCanon(
    ms: seq<Entry<Value>>, m: Entry<Value>, ns: seq<Entry<Value>>, n: Entry<Value>)
    requires ValidMembers(ms) && ValidMembers(ns) && m in ms && n in ns && Matches(m, n)
    ensures SameCanon(m, n)
    decreases m
  {
    hide Canon, ValidValue;
    ValidMembersAre(ms, m);
    ValidMembersAre(ns, n);
    EquivalentHaveOneCanon(m.value, n.value);
  }

  lemma MatchingMembers(ms: seq<Entry<Value>>, ns: seq<Entry<Value>>)
    requires ValidMembers(ms) && Distinct(Keys(ms)) && ValidMembers(ns) && Distinct(Keys(ns))
    requires MatchedIn(ms, ns) && MatchedFrom(ms, ns)
    requires forall m, n | m in ms && n in ns && Matches(m, n) :: SameCanon(m, n)
    ensures Sort(CanonMembers(ms)) == Sort(CanonMembers(ns))
  {
    hide Canon, CanonMembers, Sort, Keys, ValidMembers, Matches, SameCanon, MatchedIn, MatchedFrom;
    hide CanonWithin;
    MatchedInCanon(ms, ns);
    MatchedFromCanon(ms, ns);
    SameCanonMembers(ms, ns);
  }

  /** Every member of `ms` has one of `ns` with the same canonical form. */
  ghost predicate CanonWithin(ms: seq<Entry<Value>>, ns: seq<Entry<Value>>) {
    forall m | m in ms :: exists n | n in ns :: SameCanon(m, n)
  }

  lemma MatchedInCanon(ms: seq<Entry<Value>>, ns: seq<Entry<Value>>)
    requires MatchedIn(ms, ns)
    requires forall m, n | m in ms && n in ns && Matches(m, n) :: SameCanon(m, n)
    ensures CanonWithin(ms, ns)
  {
    hide Matches, SameCanon;
    forall m | m in ms ensures exists n | n in ns :: SameCanon(m, n) {
      var n :| n in ns && Matches(m, n);
      assert SameCanon(m, n);
    }
  }

  lemma MatchedFromCanon(ms: seq<Entry<Value>>, ns: seq<Entry<Value>>)
    requires MatchedFrom(ms, ns)
    requires forall m, n | m in ms && n in ns && Matches(m, n) :: SameCanon(m, n)
    ensures CanonWithin(ns, ms)
  {
    hide Matches, Canon;
    forall n | n in ns ensures exists m | m in ms :: SameCanon(n, m) {
      var m :| m in ms && Matches(m, n);
      assert SameCanon(m, n) && SameCanon(n, m);
    }
  }

  lemma {:induction false} PointwiseCanon(es: seq<Value>, fs: seq<Value>)
    requires |es| == |fs| && forall i | 0 <= i < |es| :: Canon(es[i]) == Canon(fs[i])
    ensures CanonAll(es) == CanonAll(fs)
  {
    hide Canon;
    if es != [] {
      PointwiseCanon(es[1..], fs[1..]);
    }
  }

  lemma CanonMembersElements(ms: seq<Entry<Value>>, e: Entry<Value>)
    ensures e in CanonMembers(ms) <==> exists m :: m in ms && e == Entry(m.key, Canon(m.value))
  {
    hide Canon, Emit, CanonJson, CanonMembers;
    EntrywiseForms(ms);
    var cs := MapEntries(Canon, ms);
    if e in cs {
      var i :| 0 <= i < |cs| && cs[i] == e;
      assert ms[i] in ms;
    }
    if m :| m in ms && e == Entry(m.key, Canon(m.value)) {
      var i :| 0 <= i < |ms| && ms[i] == m;
      assert cs[i] == e;
    }
  }

  lemma CanonElementKept(ms: seq<Entry<Value>>, ns: seq<Entry<Value>>, e: Entry<Value>)
    requires CanonWithin(ms, ns) && e in CanonMembers(ms)
    ensures e in CanonMembers(ns)
  {
    hide Canon, CanonMembers;
    CanonMembersElements(ms, e);
    CanonMembersElements(ns, e);
    var m :| m in ms && e == Entry(m.key, Canon(m.value));
    var n :| n in ns && SameCanon(m, n);
  }

  /** Member sequences that match up to order and canonical values sort to one sequence. */
  lemma SameCanonMembers(ms: seq<Entry<Value>>, ns: seq<Entry<Value>>)
    requires ValidMembers(ms) && Distinct(Keys(ms)) && ValidMembers(ns) && Distinct(Keys(ns))
    requires CanonWithin(ms, ns) && CanonWithin(ns, ms)
    ensures Sort(CanonMembers(ms)) == Sort(CanonMembers(ns))
  {
    hide CanonMembers, ValidUtf8, Sort, ValidMembers, Keys, CanonWithin;
    var a, b := CanonMembers(ms), CanonMembers(ns);
    forall e ensures e in a <==> e in b {
      if e in a { CanonElementKept(ms, ns, e); }
      if e in b { CanonElementKept(ns, ms, e); }
    }
    SortElements(a);
    SortElements(b);
    CanonMembersSorted(ms);
    CanonMembersSorted(ns);
    SortedUnique(Sort(a), Sort(b));
  }

  lemma CanonMembersSorted(ms: seq<Entry<Value>>)
    requires ValidMembers(ms) && Distinct(Keys(ms))
    ensures StrictlySorted(Sort(CanonMembers(ms)))
    ensures forall e | e in Sort(CanonMembers(ms)) :: ValidUtf8(e.key)
  {
    hide Canon, Emit, CanonJson, CanonMembers, Sort, ValidUtf8;
    ValidIsSortable(ms);
    EntrywiseForms(ms);
    MapSortable(Canon, ms);
    SortSorted(CanonMembers(ms));
    SortElements(CanonMembers(ms));
  }

  /** Values with one canonical value are equivalent. */
  lemma {:induction false} OneCanonIsEquivalent(v: Value, w: Value)
    requires Canon(v) == Canon(w)
    ensures Equivalent(v, w)
  {
    match v
    case VArray(es) =>
      var fs := w.elems;
      CanonAllPointwise(es);
      CanonAllPointwise(fs);
      forall i | 0 <= i < |es| ensures Equivalent(es[i], fs[i]) {
        OneCanonIsEquivalent(es[i], fs[i]);
      }
    case VObject(ms) =>
      var ns := w.members;
      SortElements(CanonMembers(ms));
      SortElements(CanonMembers(ns));
      forall m | m in ms ensures exists n | n in ns :: Matches(m, n) {
        var n := Counterpart(ms, ns, m);
        OneCanonIsEquivalent(m.value, n.value);
        assert Matches(m, n);
      }
      forall n | n in ns ensures exists m | m in ms :: Matches(m, n) {
        var m := Counterpart(ns, ms, n);
        OneCanonIsEquivalent(m.value, n.value);
        assert Matches(m, n);
      }
    case _ =>
  }

  lemma {:induction false} CanonAllPointwise(es: seq<Value>)
    ensures |CanonAll(es)| == |es| && forall i | 0 <= i < |es| :: CanonAll(es)[i] == Canon(es[i])
  {
    hide Canon;
    if es != [] {
      CanonAllPointwise(es[1..]);
    }
  }

  lemma Counterpart(ms: seq<Entry<Value>>, ns: seq<Entry<Value>>, m: Entry<Value>) returns (n: Entry<Value>)
    requires m in ms
    requires forall e :: e in CanonMembers(ms) ==> e in CanonMembers(ns)
    ensures n in ns && n.key == m.key && Canon(n.value) == Canon(m.value)
  {
    hide Canon, CanonMembers;
    var e := Entry(m.key, Canon(m.value));
    CanonMembersElements(ms, e);
    CanonMembersElements(ns, e);
    n :| n in ns && e == Entry(n.key, Canon(n.value));
  }

  /** Equivalence is equality of canonical values. */
  lemma EquivalentIffOneCanon(v: Value, w: Value)
    requires ValidValue(v) && ValidValue(w)
    ensures Equivalent(v, w) <==> Canon(v) == Canon(w)
  {
    if Equivalent(v, w) {
      EquivalentHaveOneCanon(v, w);
    }
    if Canon(v) == Canon(w) {
      OneCanonIsEquivalent(v, w);
    }
  }
}
