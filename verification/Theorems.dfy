/** The pipeline as a whole: parsing, validation and canonical emission together. */
module Theorems {
  import opened Bytes
  import opened Decimals
  import opened Doubles
  import opened Tokens
  import opened Layout
  import opened Numbers
  import opened NumberText
  import opened Values
  import opened Ordering
  import opened Grammar
  import opened Parsing
  import opened Canonical
  import opened Validation
  import opened Serializer
  import opened Tightening

  // ---------- numbers ----------

  /** Sign, digits and exponent can be read off the formatted text. */
  lemma LayoutTextInjective(s: bool, a: seq<nat>, m: int, t: bool, b: seq<nat>, n: int)
    requires Normalized(a) && Normalized(b)
    requires WellFormed(CanonicalToken(s, a, m)) && WellFormed(CanonicalToken(t, b, n))
    requires TokenText(CanonicalToken(s, a, m)) == TokenText(CanonicalToken(t, b, n))
    ensures s == t && a == b && m == n
  {
    hide TokenText, WellFormed, CanonicalToken;
    TokenTextInjective(CanonicalToken(s, a, m), CanonicalToken(t, b, n));
    LayoutInjective(s, a, m, t, b, n);
  }

  /** Two finite doubles have one text exactly when they are equal or both zero. */
  lemma FormatInjective(x: Float, y: Float)
    requires x.Finite? && y.Finite?
    ensures FormatSpec(x) == FormatSpec(y) <==> x == y || x.magnitude == 0 == y.magnitude
  {
    hide TokenText, AbsoluteValue, Round, WellFormed;
    var t, u := NumberToken(x.negative, x.magnitude), NumberToken(y.negative, y.magnitude);
    FormattedTokenReadsBack(x.negative, x.magnitude);
    FormattedTokenReadsBack(y.negative, y.magnitude);
    if FormatSpec(x) == FormatSpec(y) {
      TokenTextInjective(t, u);
      if x.magnitude != 0 {
        assert t.negative == x.negative && u.negative == y.negative;
      }
    }
  }

  // ---------- canonical values ----------

  /** Emission does not distinguish a value from its canonical value. */
  lemma {:induction false} EmitOfCanon(v: Value)
    requires ValidValue(v)
    ensures Emit(Canon(v)) == Emit(v)
  {
    hide FormatSpec, Sort, EmitSorted, EmitMembers, CanonMembers, EmitElems, CanonAll;
    match v
    case VNumber(num) =>
      if num.magnitude == 0 {
        FormatInjective(num, Finite(false, 0));
      }
    case VArray(elems) =>
      forall e | e in elems ensures Emit(Canon(e)) == Emit(e) {
        ValidElemsAre(elems, e);
        EmitOfCanon(e);
      }
      EmitOfCanonElems(elems, true);
    case VObject(members) =>
      forall m | m in members ensures Emit(Canon(m.value)) == Emit(m.value) {
        ValidMembersAre(members, m);
        EmitOfCanon(m.value);
      }
      EmitOfCanonMembers(members);
    case _ =>
  }

  lemma {:induction false} EmitOfCanonElems(es: seq<Value>, first: bool)
    requires forall e | e in es :: Emit(Canon(e)) == Emit(e)
    ensures EmitElems(CanonAll(es), first) == EmitElems(es, first)
  {
    hide Emit, Canon;
    if es != [] {
      EmitOfCanonElems(es[1..], false);
      assert es[0] in es;
      assert CanonAll(es)[1..] == CanonAll(es[1..]);
    }
  }

  lemma EmitOfCanonMembers(ms: seq<Entry<Value>>)
    requires ValidMembers(ms) && Distinct(Keys(ms))
    requires forall m | m in ms :: Emit(Canon(m.value)) == Emit(m.value)
    ensures Sort(EmitMembers(Sort(CanonMembers(ms)))) == Sort(EmitMembers(ms))
  {
    hide Emit, Canon, CanonJson, Sort, EmitMembers, CanonMembers, StrictlySorted, ValidMembers;
    var cs := CanonMembers(ms);
    CanonMembersSorted(ms);
    SortOfSorted(Sort(cs));
    SortedForms(Sort(cs));
    SortedForms(cs);
    EntrywiseForms(ms);
    EntrywiseForms(cs);
    var a, b := MapEntries(Emit, MapEntries(Canon, ms)), MapEntries(Emit, ms);
    forall i | 0 <= i < |ms| ensures a[i] == b[i] {
      assert ms[i] in ms;
    }
    assert a == b;
  }

  // ---------- the canonical text as a document ----------

  ghost function CanonDocument(v: Value): Document {
    Document([], CanonJson(v), [])
  }

  lemma CanonicalDocument(v: Value)
    requires ValidValue(v)
    ensures var d := CanonDocument(v);
      WellFormedDocument(d) && Emit(v) == Ok(DocumentText(d)) && Denote(d.root) == Canon(v)
  {
    hide Emit, Text, ValidValue, Canon, CanonJson;
    CanonCorrect(v);
    var t := Text(CanonJson(v));
    assert [] + (t + []) == t;
  }

  /** Whatever the bounds, the canonical text parses to nothing but the canonical value. */
  lemma ParsesOnlyToCanon(v: Value, l: Limits)
    requires ValidValue(v)
    ensures Emit(v).Ok?
    ensures ParseText(Emit(v).value, l).Ok? ==> ParseText(Emit(v).value, l).value == Canon(v)
  {
    hide Emit, ParseText, ValidValue, Canon, DocumentText, DocumentFits, CanonDocument;
    CanonicalDocument(v);
    if ParseText(Emit(v).value, l).Ok? {
      var d := ParsedIsDerived(Emit(v).value, l);
      DenotationUnique(d, CanonDocument(v));
    }
  }

  // ---------- parsing undoes printing ----------

  /**
   * For every tree the serializer accepts, under all bounds: its text parses under the same bounds
   * exactly when its containers are nested no deeper than the parser allows, the text is within the
   * input size and every number within the number length; and then to the same tree, with members
   * sorted at every level and -0 replaced by 0. Otherwise a bound is exceeded.
   */
  lemma RoundTripExact(v: Value, l: Limits)
    requires SerializeSpec(v, l).Ok?
    ensures var text := SerializeSpec(v, l).value;
      ParseText(text, l) ==
        if Nesting(v) <= l.maxDepth && |text| <= l.maxInputSize && NumbersFit(v, l.maxNumberChars)
        then Ok(Canon(v)) else Err(BoundExceeded)
  {
    hide Emit, ParseText, ValidValue, Canon, DocumentText, CanonJson, TokensFit, Nodes, Nesting, Fits, Height, Denote;
    hide WellFormedJson, NumbersFit;
    ValidateExact(v, 0, 0, l);
    CanonicalDocument(v);
    CanonMeasures(v, l);
    CanonTokensFit(v, l.maxNumberChars);
    GrammaticalOutcome(CanonDocument(v), l);
  }

  /** With 25 characters allowed per number, nesting and length decide. */
  lemma RoundTrip(v: Value, l: Limits)
    requires SerializeSpec(v, l).Ok? && l.maxNumberChars >= MAX_NUMBER_TEXT
    ensures var text := SerializeSpec(v, l).value;
      ParseText(text, l) ==
        if Nesting(v) <= l.maxDepth && |text| <= l.maxInputSize then Ok(Canon(v)) else Err(BoundExceeded)
  {
    hide SerializeSpec, ParseText, Canon, Nesting, NumbersFit;
    RoundTripExact(v, l);
    NumbersFitIn25(v, l.maxNumberChars);
  }

  /** `n + 1` nested arrays, the innermost empty. */
  function Tower(n: nat): Value {
    if n == 0 then VArray([]) else VArray([Tower(n - 1)])
  }

  lemma {:induction false} TowerMeasures(n: nat, l: Limits)
    requires l.maxArrayElements >= 1
    ensures ValidValue(Tower(n)) && Fits(Tower(n), l)
    ensures Height(Tower(n)) == n && Nesting(Tower(n)) == n + 1 && Nodes(Tower(n)) == n + 1
  {
    if n > 0 {
      TowerMeasures(n - 1, l);
      OneElementMeasures(Tower(n - 1), l);
    }
  }

  lemma OneElementMeasures(v: Value, l: Limits)
    requires l.maxArrayElements >= 1
    ensures ValidValue(VArray([v])) == ValidValue(v) && Fits(VArray([v]), l) == Fits(v, l)
    ensures Height(VArray([v])) == 1 + Height(v) && Nesting(VArray([v])) == 1 + Nesting(v)
    ensures Nodes(VArray([v])) == 1 + Nodes(v)
  {
    var es := [v];
    assert es[1..] == [];
    assert ValidAll(es) == (ValidValue(v) && ValidAll([]));
    assert FitsAll(es, l) == (Fits(v, l) && FitsAll([], l));
    assert HeightAll(es) == Max(1 + Height(v), HeightAll([]));
    assert NestingAll(es) == Max(Nesting(v), NestingAll([]));
    assert NodesAll(es) == Nodes(v) + NodesAll([]);
  }

  /** The tower that serializes and does not parse back. */
  lemma SerializableButNotParsable(l: Limits)
    requires l.maxArrayElements >= 1 && l.maxValues > l.maxDepth
    ensures SerializeSpec(Tower(l.maxDepth), l).Ok?
    ensures ParseText(SerializeSpec(Tower(l.maxDepth), l).value, l) == Err(BoundExceeded)
  {
    hide Emit, ParseText, Canon, ValidValue, Fits, Height, Nesting, Nodes, Tower, NumbersFit;
    var v := Tower(l.maxDepth);
    TowerMeasures(l.maxDepth, l);
    ValidateExact(v, 0, 0, l);
    ParsesOnlyToCanon(v, l);
    RoundTripExact(v, l);
  }

  /** A tree that serializes but is nested too deep for the parser. */
  ghost predicate TooDeepToParse(v: Value, l: Limits) {
    SerializeSpec(v, l).Ok? && Nesting(v) > l.maxDepth
  }

  /** Serialization allows a level of nesting more than parsing exactly when more values than levels are allowed. */
  lemma ExtraLevelExactly(l: Limits)
    requires l.maxArrayElements >= 1
    ensures (exists v :: TooDeepToParse(v, l)) <==> l.maxValues > l.maxDepth
  {
    hide SerializeSpec, Nesting, Nodes, Height, ValidValue, Fits;
    if v :| TooDeepToParse(v, l) {
      SerializesExactly(v, l);
      NestingWithinNodes(v);
    }
    if l.maxValues > l.maxDepth {
      SerializableButNotParsable(l);
      TowerMeasures(l.maxDepth, l);
      assert TooDeepToParse(Tower(l.maxDepth), l);
    }
  }

  /** Only that one level is lost: a serializable tree is nested at most one deeper than the parser allows. */
  lemma AtMostOneLevelDeeper(v: Value, l: Limits)
    requires SerializeSpec(v, l).Ok?
    ensures Nesting(v) <= l.maxDepth + 1
    ensures Nesting(v) == l.maxDepth + 1 ==> Height(v) == l.maxDepth
  {
    hide Emit, ValidValue, Fits, Nodes;
    ValidateExact(v, 0, 0, l);
    HeightWithinNesting(v);
  }

  // ---------- canonical form is exact ----------

  /** Two valid trees have one text exactly when they are equal up to member order and the sign of zero. */
  lemma CanonicalExact(v: Value, w: Value)
    requires ValidValue(v) && ValidValue(w)
    ensures Emit(v) == Emit(w) <==> Equivalent(v, w)
  {
    hide Emit, ValidValue, Canon, DocumentText, CanonDocument, Equivalent;
    EquivalentIffOneCanon(v, w);
    if Emit(v) == Emit(w) {
      CanonicalDocument(v);
      CanonicalDocument(w);
      DenotationUnique(CanonDocument(v), CanonDocument(w));
    }
    if Equivalent(v, w) {
      EmitOfCanon(v);
      EmitOfCanon(w);
    }
  }

  /** The same for the outputs of the serializer, under any bounds. */
  lemma SerializationExact(v: Value, w: Value, l: Limits)
    requires SerializeSpec(v, l).Ok? && SerializeSpec(w, l).Ok?
    ensures SerializeSpec(v, l) == SerializeSpec(w, l) <==> Equivalent(v, w)
  {
    hide Emit, ValidValue, Equivalent, Validate;
    ValidateExact(v, 0, 0, l);
    ValidateExact(w, 0, 0, l);
    CanonicalExact(v, w);
  }

  /** Serialization succeeds exactly on valid trees within the bounds. */
  lemma SerializesExactly(v: Value, l: Limits)
    ensures SerializeSpec(v, l).Ok? <==>
      ValidValue(v) && Fits(v, l) && Height(v) <= l.maxDepth && Nodes(v) <= l.maxValues
  {
    hide Emit, ValidValue, Validate, Fits, Height, Nodes;
    ValidateExact(v, 0, 0, l);
    if ValidValue(v) {
      CanonCorrect(v);
    }
  }

  // ---------- canonicalization ----------

  /** Whatever parses also serializes under the same bounds: canonicalization fails only where parsing does. */
  lemma ParserOutputSerializes(data: ByteString, l: Limits)
    ensures ParseText(data, l).Ok? ==>
      var v := ParseText(data, l).value;
      Nesting(v) <= l.maxDepth && Validate(v, 0, 0, l) == Ok(Nodes(v)) && CanonicalizeSpec(data, l) == Emit(v)
    ensures CanonicalizeSpec(data, l).Ok? <==> ParseText(data, l).Ok?
    ensures ParseText(data, l).Err? ==> CanonicalizeSpec(data, l) == Err(ParseText(data, l).failure)
  {
    hide Emit, ValidValue, ParseText, Validate, Fits, Height, Nodes, Nesting, DocumentText, Canon, CanonJson;
    hide WellFormedJson, Denote, TokensFit;
    if ParseText(data, l).Ok? {
      var v := ParseText(data, l).value;
      var d := ParsedIsDerived(data, l);
      DenoteIsValid(d.root);
      HeightWithinNesting(v);
      ValidateExact(v, 0, 0, l);
      SerializesExactly(v, l);
    }
  }

  /**
   * Canonicalizing a canonical output returns it unchanged exactly when it is not too long to be read
   * again and none of its numbers is; both can happen, since a canonical number can be longer than
   * the one it came from. Otherwise a bound is exceeded.
   */
  lemma IdempotentExactly(data: ByteString, l: Limits)
    requires CanonicalizeSpec(data, l).Ok?
    ensures ParseText(data, l).Ok?
    ensures var out := CanonicalizeSpec(data, l).value;
      CanonicalizeSpec(out, l) ==
        if |out| <= l.maxInputSize && NumbersFit(ParseText(data, l).value, l.maxNumberChars)
        then Ok(out) else Err(BoundExceeded)
  {
    hide Emit, ValidValue, Validate, Nodes, Nesting, Canon, ParseText, NumbersFit;
    ParserOutputSerializes(data, l);
    var v, out := ParseText(data, l).value, CanonicalizeSpec(data, l).value;
    RoundTripExact(v, l);
    SerializedIsEmitted(v, l);
    ParserOutputSerializes(out, l);
    EmitOfCanon(v);
  }

  /** With 25 characters allowed per number, the length decides. */
  lemma Idempotent(data: ByteString, l: Limits)
    requires CanonicalizeSpec(data, l).Ok? && l.maxNumberChars >= MAX_NUMBER_TEXT
    ensures var out := CanonicalizeSpec(data, l).value;
      CanonicalizeSpec(out, l) == if |out| <= l.maxInputSize then Ok(out) else Err(BoundExceeded)
  {
    hide CanonicalizeSpec, ParseText, NumbersFit;
    IdempotentExactly(data, l);
    NumbersFitIn25(ParseText(data, l).value, l.maxNumberChars);
  }

  // ---------- verification ----------

  /** `data` is the canonical text of a tree that the parser's bounds admit. */
  ghost predicate CanonicalTextOf(data: ByteString, v: Value, l: Limits) {
    SerializeSpec(v, l) == Ok(data) && Nesting(v) <= l.maxDepth && |data| <= l.maxInputSize
  }

  /** Input verifies exactly when it is the canonical text of some tree within the default bounds. */
  lemma VerifyExact(data: ByteString)
    ensures VerifySpec(data) == Pass <==> exists v :: CanonicalTextOf(data, v, DEFAULT_LIMITS)
  {
    hide Emit, ValidValue, ParseText, Validate, Nodes, Nesting, Canon, SerializeSpec;
    var l := DEFAULT_LIMITS;
    if VerifySpec(data) == Pass {
      var v := ParseText(data, l).value;
      ParserOutputSerializes(data, l);
      var d := ParsedIsDerived(data, l);
      assert CanonicalTextOf(data, v, l);
    }
    if v :| CanonicalTextOf(data, v, l) {
      RoundTrip(v, l);
      ParserOutputSerializes(data, l);
      SerializedIsEmitted(v, l);
      EmitOfCanon(v);
    }
  }

  lemma SerializedIsEmitted(v: Value, l: Limits)
    requires SerializeSpec(v, l).Ok?
    ensures ValidValue(v) && SerializeSpec(v, l) == Emit(v)
  {
    hide Emit, ValidValue, Validate, Fits, Height, Nodes;
    ValidateExact(v, 0, 0, l);
  }

  /** Every canonical output within the default input size verifies, and no other output does. */
  lemma CanonicalOutputVerifies(data: ByteString)
    requires CanonicalizeSpec(data, DEFAULT_LIMITS).Ok?
    ensures var out := CanonicalizeSpec(data, DEFAULT_LIMITS).value;
      VerifySpec(out) == (if |out| <= DEFAULT_LIMITS.maxInputSize then Pass else Fail(BoundExceeded))
  {
    hide CanonicalizeSpec;
    Idempotent(data, DEFAULT_LIMITS);
  }

  /** Inputs that denote equivalent values canonicalize to the same bytes, and only those do. */
  lemma CanonicalizationDecidesEquivalence(a: ByteString, b: ByteString, l: Limits)
    ensures ParseText(a, l).Ok? && ParseText(b, l).Ok? ==>
      (CanonicalizeSpec(a, l) == CanonicalizeSpec(b, l) <==>
       Equivalent(ParseText(a, l).value, ParseText(b, l).value))
  {
    hide Emit, ValidValue, ParseText, Validate, Equivalent, Nodes, Nesting;
    if ParseText(a, l).Ok? && ParseText(b, l).Ok? {
      ParserOutputSerializes(a, l);
      ParserOutputSerializes(b, l);
      ValidateExact(ParseText(a, l).value, 0, 0, l);
      ValidateExact(ParseText(b, l).value, 0, 0, l);
      CanonicalExact(ParseText(a, l).value, ParseText(b, l).value);
    }
  }
}
