/**
 * Canonical text by rules on its syntax tree, independent of how it is produced: no space, every
 * character in its canonical spelling, every number in its printed form, every object's names in
 * UTF-16 order. Exactly the trees that the serializer writes meet them.
 */
module CanonicalForm {
  import opened Bytes
  import opened Unicode
  import opened Decimals
  import opened Doubles
  import opened Conversion
  import opened Tokens
  import opened Strings
  import opened Numbers
  import opened Layout
  import opened NumberText
  import opened Forms
  import opened CodeUnits
  import opened Spelling
  import opened Values
  import opened Ordering
  import opened Grammar
  import opened Parsing
  import Faults
  import opened Unambiguous
  import opened Canonical
  import opened Validation
  import opened Serializer
  import opened Theorems

  // ---------- the rules ----------

  /** The printed form of the double that the number denotes. */
  ghost predicate PrintedForm(t: Token)
    requires AcceptedNumber(t)
  {
    var m := Round(AbsoluteValue(t));
    if m == 0 then !t.negative && PlainForm(t)
    else EcmaForm(t) && exists ds, n :: IsShortest(m, ds, n) && AbsoluteValue(t) == DecimalValue(ds, n)
  }

  ghost predicate SpelledCanonically(items: seq<Item>) {
    forall i | i in items :: CanonicalSpelling(i)
  }

  ghost predicate NamesInOrder(names: seq<ByteString>) {
    forall i, j | 0 <= i < j < |names| :: RunesBefore(Runes(names[i]), Runes(names[j]))
  }

  ghost predicate CanonicalTree(j: Json)
    requires WellFormedJson(j)
  {
    match j
    case JNumber(t) => PrintedForm(t)
    case JString(items) => SpelledCanonically(items)
    case JEmptyArray(gap) => gap == []
    case JArray(elems) => CanonicalElems(elems)
    case JEmptyObject(gap) => gap == []
    case JObject(members) => CanonicalMembers(members) && NamesInOrder(Keys(DenoteMembers(members)))
    case _ => true
  }

  ghost predicate CanonicalElems(e: Elems)
    requires WellFormedElems(e)
  {
    e.before == [] == e.after && CanonicalTree(e.value) && (e.MoreElems? ==> CanonicalElems(e.rest))
  }

  ghost predicate CanonicalMembers(m: Members)
    requires WellFormedMembers(m)
  {
    && m.before == [] == m.afterKey && m.beforeValue == [] == m.after
    && SpelledCanonically(m.key) && CanonicalTree(m.value) && (m.MoreMembers? ==> CanonicalMembers(m.rest))
  }

  // ---------- numbers and strings ----------

  lemma NumberForm(t: Token)
    requires WellFormed(t) && AcceptedNumber(t)
    ensures PrintedForm(t) <==> JNumber(t) == CanonJson(VNumber(FloatOf(t)))
  {
    hide WellFormed, EcmaForm, AbsoluteValue, IsShortest, DecimalValue, PlainForm;
    var m := Round(AbsoluteValue(t));
    if m == 0 {
      ZeroForm(t);
    } else {
      FormattedExactly(t.negative, m, t);
      PrintedDecimal(t, m);
    }
  }

  lemma ZeroForm(t: Token)
    requires WellFormed(t) && AbsoluteValue(t) == 0.0
    ensures !t.negative && PlainForm(t) <==> t == NumberToken(false, 0)
  {
    hide AbsoluteValue;
    var zero := NumberToken(false, 0);
    FormattedTokenReadsBack(false, 0);
    if !t.negative && PlainForm(t) {
      PlainUnique(t, zero);
    }
  }

  lemma PrintedDecimal(t: Token, m: NonZero)
    ensures (exists ds, n :: IsShortest(m, ds, n) && AbsoluteValue(t) == DecimalValue(ds, n)) <==>
      AbsoluteValue(t) == DecimalValue(ShortestDecimal(m).0, ShortestDecimal(m).1)
  {
    hide IsShortest, AbsoluteValue, DecimalValue;
    var (cs, k) := ShortestDecimal(m);
    assert IsShortest(m, cs, k);
    if ds, n :| IsShortest(m, ds, n) && AbsoluteValue(t) == DecimalValue(ds, n) {
      ShortestUnique(m, ds, n, cs, k);
    }
  }

  lemma StringForm(items: seq<Item>)
    requires WellFormedItems(items)
    ensures SpelledCanonically(items) <==> items == CanonicalItems(Runes(Denoted(items)))
  {
    hide WellFormedItems, CanonicalSpelling, CanonicalItems, Runes, RunesOfItems;
    RunesOfDenoted(items);
    CanonicalLiteral(items);
  }

  // ---------- trees ----------

  /** The rules hold of exactly the canonical trees. */
  lemma {:induction false} FormExact(j: Json)
    requires WellFormedJson(j)
    ensures CanonicalTree(j) <==> j == CanonJson(Denote(j))
    decreases j, 1
  {
    hide SpelledCanonically, WellFormedItems, CanonicalItems, Runes, Denoted, DenoteString, PrintedForm, FloatOf;
    hide AcceptedNumber, WellFormed, CanonElems, CanonicalElems, CanonicalMembers, NamesInOrder, Keys, Distinct;
    hide WellFormedElems, WellFormedMembers, ToMembers, Sort, CanonEntries, DenoteElems, DenoteMembers;
    match j
    case JNumber(t) => NumberForm(t);
    case JString(items) => StringForm(items);
    case JArray(e) =>
      ElemsNotEmpty(e);
      ElemsForm(e);
    case JObject(m) => ObjectForm(m);
    case _ =>
  }

  lemma ElemsNotEmpty(e: Elems)
    ensures DenoteElems(e) != []
  {
  }

  lemma {:induction false} ElemsForm(e: Elems)
    requires WellFormedElems(e)
    ensures DenoteElems(e) != []
    ensures CanonicalElems(e) <==> e == CanonElems(DenoteElems(e))
    decreases e, 0
  {
    hide Denote, CanonJson, WellFormedJson, CanonicalTree;
    FormExact(e.value);
    var es := DenoteElems(e);
    assert es[0] == Denote(e.value);
    if e.MoreElems? {
      ElemsForm(e.rest);
      assert es[1..] == DenoteElems(e.rest);
    }
  }

  /** The members of a canonical object, before the question of their order. */
  lemma {:induction false} MembersForm(m: Members)
    requires WellFormedMembers(m)
    ensures DenoteMembers(m) != []
    ensures CanonicalMembers(m) <==> m == ToMembers(MapEntries(CanonJson, DenoteMembers(m)))
    decreases m, 0
  {
    hide Denote, CanonJson, WellFormedJson, CanonicalTree, SpelledCanonically, WellFormedItems, CanonicalItems;
    hide Runes, Denoted, DenoteString;
    FormExact(m.value);
    StringForm(m.key);
    var ms := DenoteMembers(m);
    assert ms[0] == Entry(DenoteString(m.key), Denote(m.value));
    if m.MoreMembers? {
      MembersForm(m.rest);
      assert ms[1..] == DenoteMembers(m.rest);
      assert MapEntries(CanonJson, ms)[1..] == MapEntries(CanonJson, ms[1..]);
    }
  }

  lemma {:induction false} ObjectForm(m: Members)
    requires WellFormedMembers(m) && Distinct(Keys(DenoteMembers(m)))
    ensures CanonicalMembers(m) && NamesInOrder(Keys(DenoteMembers(m))) <==>
      JObject(m) == CanonJson(VObject(DenoteMembers(m)))
    decreases m, 1
  {
    hide CanonicalMembers, ToMembers, Sort, CanonEntries, DenoteMembers, NamesInOrder, Keys, CanonJson;
    hide StrictlySorted, WellFormedMembers, Distinct;
    var ms := DenoteMembers(m);
    DenoteMembersIsValid(m);
    MembersForm(m);
    SortedForms(ms);
    ValidIsSortable(ms);
    ObjectTree(ms);
    OrderedIsSorted(ms);
    if JObject(m) == CanonJson(VObject(ms)) {
      WrittenInOrder(m);
    }
    if StrictlySorted(ms) {
      SortOfSorted(ms);
    }
  }

  lemma ObjectTree(ms: seq<Entry<Value>>)
    requires ms != []
    ensures CanonJson(VObject(ms)) == JObject(ToMembers(Sort(CanonEntries(ms))))
  {
    hide ToMembers, Sort, CanonEntries;
  }

  lemma OrderedIsSorted(ms: seq<Entry<Value>>)
    requires ValidMembers(ms)
    ensures NamesInOrder(Keys(ms)) <==> StrictlySorted(ms)
  {
    hide KeyLess, RunesBefore, Runes, ValidUtf8;
    forall i, j | 0 <= i < j < |ms|
      ensures KeyLess(ms[i].key, ms[j].key) <==> RunesBefore(Runes(Keys(ms)[i]), Runes(Keys(ms)[j]))
    {
      ValidMembersAre(ms, ms[i]);
      ValidMembersAre(ms, ms[j]);
      ValidKey(ms[i].key);
      ValidKey(ms[j].key);
      KeyOrderByRunes(ms[i].key, ms[j].key);
    }
  }

  /** Members written by the serializer have their names in order. */
  lemma WrittenInOrder(m: Members)
    requires WellFormedMembers(m) && Distinct(Keys(DenoteMembers(m)))
    requires JObject(m) == CanonJson(VObject(DenoteMembers(m)))
    ensures StrictlySorted(DenoteMembers(m))
  {
    hide CanonJson, ToMembers, Sort, CanonEntries, DenoteMembers, Keys, StrictlySorted, WellFormedMembers, KeyLess;
    hide CleanString, Denote, ValidMembers, ValidUtf8, Distinct;
    var ms := DenoteMembers(m);
    MembersNotEmpty(m);
    ObjectTree(ms);
    DenoteMembersIsValid(m);
    ValidIsSortable(ms);
    SortedForms(ms);
    SortElements(ms);
    var sorted := Sort(ms);
    forall e | e in sorted ensures CleanString(e.key) {
      ValidMembersAre(ms, e);
    }
    WrittenKeys(sorted);
    SortedByKeys(sorted, ms);
  }

  lemma MembersNotEmpty(m: Members)
    ensures DenoteMembers(m) != []
  {
  }

  lemma {:induction false} WrittenKeys(es: seq<Entry<Value>>)
    requires es != [] && forall e | e in es :: CleanString(e.key)
    ensures Keys(DenoteMembers(ToMembers(MapEntries(CanonJson, es)))) == Keys(es)
  {
    hide CanonJson, Denote, CleanString, CanonicalItems, Runes, Denoted, DenoteString, WellFormedItems;
    hide DenoteMembers, StringText, Quoted;
    var entries := MapEntries(CanonJson, es);
    KeyCorrect(es[0].key);
    assert entries[0].key == es[0].key;
    Faults.KeysStep(ToMembers(entries));
    KeysOf(es);
    if |es| > 1 {
      assert entries[1..] == MapEntries(CanonJson, es[1..]);
      WrittenKeys(es[1..]);
    }
  }

  lemma KeysOf<T>(es: seq<Entry<T>>)
    requires es != []
    ensures Keys(es) == [es[0].key] + Keys(es[1..]) && (|es| == 1 ==> Keys(es[1..]) == [])
  {
  }

  lemma SortedByKeys<A, B>(es: seq<Entry<A>>, fs: seq<Entry<B>>)
    requires StrictlySorted(es) && Keys(es) == Keys(fs)
    ensures StrictlySorted(fs)
  {
    hide KeyLess;
    assert |es| == |Keys(es)| == |fs|;
    forall i, j | 0 <= i < j < |fs| ensures KeyLess(fs[i].key, fs[j].key) {
      assert Keys(es)[i] == es[i].key && Keys(es)[j] == es[j].key;
      assert Keys(fs)[i] == fs[i].key && Keys(fs)[j] == fs[j].key;
    }
  }

  // ---------- the serializer and verification ----------

  ghost predicate CanonicalText(d: Document)
    requires WellFormedDocument(d)
  {
    d.before == [] == d.after && CanonicalTree(d.root)
  }

  /** A canonical value has the canonical tree of the value it comes from. */
  lemma CanonJsonOfCanon(v: Value)
    requires ValidValue(v)
    ensures ValidValue(Canon(v)) && CanonJson(Canon(v)) == CanonJson(v)
  {
    hide Emit, ValidValue, Canon, DocumentText, CanonJson, Denote;
    CanonicalDocument(v);
    DenoteIsValid(CanonJson(v));
    CanonicalDocument(Canon(v));
    EmitOfCanon(v);
    DerivationUnique(CanonDocument(Canon(v)), CanonDocument(v));
  }

  /** A document is the serializer's text of a value exactly when it meets the rules and denotes its canonical value. */
  lemma WrittenExactly(v: Value, d: Document)
    requires ValidValue(v) && WellFormedDocument(d)
    ensures Emit(v) == Ok(DocumentText(d)) <==> CanonicalText(d) && Denote(d.root) == Canon(v)
  {
    hide Emit, ValidValue, Canon, DocumentText, CanonJson, Denote, CanonicalTree, WellFormedJson;
    CanonicalDocument(v);
    CanonJsonOfCanon(v);
    FormExact(d.root);
    if Emit(v) == Ok(DocumentText(d)) {
      DerivationUnique(CanonDocument(v), d);
    }
  }

  /** `d` is a canonical derivation of `data` within the default bounds. */
  ghost predicate CanonicalDerivation(d: Document, data: ByteString) {
    && WellFormedDocument(d) && DocumentText(d) == data && CanonicalText(d)
    && |data| <= DEFAULT_LIMITS.maxInputSize && DocumentFits(d, DEFAULT_LIMITS)
  }

  /** Input verifies exactly when it has a derivation within the default bounds that meets the rules. */
  lemma VerifiesByForm(data: ByteString)
    ensures VerifySpec(data) == Pass <==> exists d :: CanonicalDerivation(d, data)
  {
    hide Emit, ValidValue, Canon, DocumentText, Denote, CanonicalTree, WellFormedJson, ParseText, CanonicalizeSpec;
    hide DocumentFits;
    var l := DEFAULT_LIMITS;
    ParserOutputSerializes(data, l);
    if VerifySpec(data) == Pass {
      var d := ParsedIsDerived(data, l);
      DenoteIsValid(d.root);
      WrittenExactly(Denote(d.root), d);
      assert CanonicalDerivation(d, data);
    }
    if d :| CanonicalDerivation(d, data) {
      DerivedIsParsed(d, data, l, Denote(d.root));
      DenoteIsValid(d.root);
      FormExact(d.root);
      CanonicalDocument(Denote(d.root));
      assert d == CanonDocument(Denote(d.root));
    }
  }

  /** The whole outcome of verification: a parse failure, or not canonical, or a pass. */
  lemma VerifyOutcome(data: ByteString)
    ensures VerifySpec(data) ==
      match ParseText(data, DEFAULT_LIMITS)
      case Err(e) => Fail(e)
      case Ok(_) => if exists d :: CanonicalDerivation(d, data) then Pass else Fail(NotCanonical)
  {
    hide ParseText, CanonicalizeSpec, CanonicalDerivation;
    ParserOutputSerializes(data, DEFAULT_LIMITS);
    VerifiesByForm(data);
  }
}
