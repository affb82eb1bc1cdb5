/** The serializer: canonical emission into a growing buffer, and the entry points. */
module Serializer {
  import opened Bytes
  import opened Unicode
  import opened Doubles
  import opened Conversion
  import opened Strings
  import opened Values
  import opened Ordering
  import opened NumberText
  import opened Canonical
  import opened Validation
  import opened Parsing
  import DigitMachine
  import Parser

  // ---------- strings and numbers ----------

  /** Appends the canonical item of a byte that must be escaped, and nothing for another byte. */
  function AppendEscapedByte(buf: ByteString, b: Byte): (r: (ByteString, bool))
    ensures r.1 <==> b < 0x20 || b == QUOTE || b == BACKSLASH
    ensures r.1 ==> WellFormedItem(CanonicalItem(b)) && r.0 == buf + ItemText(CanonicalItem(b))
    ensures !r.1 ==> r.0 == buf
    ensures r.0 == buf + EscapeOf(b)
  {
    EscapeIsItem(b);
    (buf + EscapeOf(b), EscapeOf(b) != [])
  }

  lemma EscapeIsItem(b: Byte)
    ensures EscapeOf(b) != [] <==> b < 0x20 || b == QUOTE || b == BACKSLASH
    ensures EscapeOf(b) != [] ==> WellFormedItem(CanonicalItem(b)) && ItemText(CanonicalItem(b)) == EscapeOf(b)
  {
    if EscapeOf(b) != [] {
      CanonicalItemText(b);
    }
  }

  method SerializeString(buf: ByteString, s: ByteString) returns (out: ByteString)
    ensures out == buf + Quoted(s)
  {
    hide AppendEscapedByte, EscapeOf, ByteSpanForCopy, Escaped;
    out := buf + [QUOTE];
    var i := 0;
    assert s[0..] == s;
    while i < |s|
      invariant 0 <= i <= |s|
      invariant out + Escaped(s[i..]) == buf + [QUOTE] + Escaped(s)
    {
      ghost var rest := s[i..];
      EscapedNext(rest);
      var (next, consumed) := AppendEscapedByte(out, s[i]);
      if consumed {
        assert rest[1..] == s[i + 1..];
        AppendAssociative(out, EscapeOf(s[i]), Escaped(s[i + 1..]));
        out := next;
        i := i + 1;
      } else {
        var size := ByteSpanForCopy(s[i..]);
        assert rest[size..] == s[i + size..] && rest[..size] == s[i..i + size];
        AppendAssociative(out, s[i..i + size], Escaped(s[i + size..]));
        out := out + s[i..i + size];
        i := i + size;
      }
    }
    EscapedEmpty();
    assert s[i..] == [];
    assert out == buf + [QUOTE] + Escaped(s);
    out := out + [QUOTE];
    AppendAssociative(buf, [QUOTE], Escaped(s));
    AppendAssociative(buf, [QUOTE] + Escaped(s), [QUOTE]);
  }

  /** One step of escaping, by whether the next byte has an escape. */
  lemma EscapedNext(s: ByteString)
    requires s != []
    ensures EscapeOf(s[0]) != [] <==> s[0] < 0x20 || s[0] == QUOTE || s[0] == BACKSLASH
    ensures EscapeOf(s[0]) != [] ==> Escaped(s) == EscapeOf(s[0]) + Escaped(s[1..])
    ensures EscapeOf(s[0]) == [] ==> Escaped(s) == s[..ByteSpanForCopy(s)] + Escaped(s[ByteSpanForCopy(s)..])
  {
  }

  /** A usable estimate of the decimal exponent of every magnitude. */
  ghost predicate AdmissibleEstimate(estimate: NonZero -> int) {
    forall m: NonZero :: Admissible(m, estimate(m))
  }

  method SerializeNumber(buf: ByteString, f: Float, estimate: NonZero -> int) returns (r: Result<ByteString>)
    requires AdmissibleEstimate(estimate)
    ensures r == Then(buf, FormatSpec(f))
  {
    hide FormatSpec, Admissible;
    var k := if f.Finite? && f.magnitude > 0 then estimate(f.magnitude) else 0;
    var s := DigitMachine.FormatDouble(f, k);
    match s {
      case Err(e) => return Err(e);
      case Ok(t) => return Ok(buf + t);
    }
  }

  // ---------- in-place sorting ----------

  ghost function MembersOf(s: seq<SortableMember>): seq<Entry<Value>> {
    seq(|s|, i requires 0 <= i < |s| => s[i].member)
  }

  ghost predicate AllPrepared(s: seq<SortableMember>) {
    forall m | m in s :: Prepared(m)
  }

  /** Sorts members with distinct names in place; the order is the strict one on names. */
  method SortSlice(a: array<SortableMember>)
    requires AllPrepared(a[..]) && Sortable(MembersOf(a[..]))
    modifies a
    ensures StrictlySorted(MembersOf(a[..])) && SameElements(MembersOf(a[..]), old(MembersOf(a[..])))
  {
    hide KeyLess, Prepared, StrictlySorted;
    ghost var before := MembersOf(a[..]);
    var i := a.Length;
    while i > 0
      invariant 0 <= i <= a.Length && AllPrepared(a[..])
      invariant a[..i] == old(a[..])[..i]
      invariant MembersOf(a[i..]) == Sort(before[i..])
    {
      i := i - 1;
      assert before[i..][1..] == before[i + 1..] && before[i..][0] == a[i].member;
      Sink(a, i);
    }
    assert a[0..] == a[..] && before[0..] == before;
    SortSorted(before);
    SortElements(before);
  }

  /** `s` with the element at `i` moved up to `j`. */
  ghost function Moved<T>(s: seq<T>, i: nat, j: nat): (t: seq<T>)
    requires i <= j < |s|
    ensures |t| == |s| && t[j] == s[i] && t[..i] == s[..i] && t[j + 1..] == s[j + 1..]
  {
    s[..i] + s[i + 1..j + 1] + [s[i]] + s[j + 1..]
  }

  lemma MovedNext<T>(s: seq<T>, i: nat, j: nat)
    requires i <= j && j + 1 < |s|
    ensures Moved(s, i, j)[j := s[j + 1]][j + 1 := s[i]] == Moved(s, i, j + 1)
  {
  }

  lemma MovedPrepared(s: seq<SortableMember>, i: nat, j: nat)
    requires i <= j < |s| && AllPrepared(s)
    ensures AllPrepared(Moved(s, i, j))
  {
    hide Prepared;
    forall m | m in Moved(s, i, j) ensures m in s {
    }
  }

  lemma MovedMembers(s: seq<SortableMember>, i: nat, j: nat)
    requires i <= j < |s|
    ensures var es := MembersOf(s[i + 1..]);
      MembersOf(Moved(s, i, j)[i..]) == es[..j - i] + ([s[i].member] + es[j - i..])
  {
    assert Moved(s, i, j)[i..] == s[i + 1..j + 1] + ([s[i]] + s[j + 1..]);
  }

  /** Moves the element at `i` up to its place among those after it. */
  method Sink(a: array<SortableMember>, i: nat)
    requires i < a.Length && AllPrepared(a[..])
    modifies a
    ensures AllPrepared(a[..]) && a[..i] == old(a[..i])
    ensures MembersOf(a[i..]) == Insert(old(a[i].member), old(MembersOf(a[i + 1..])))
  {
    hide KeyLess, Prepared, Insert, Moved, AllPrepared;
    ghost var start := a[..];
    ghost var e, es := start[i].member, MembersOf(start[i + 1..]);
    var j := i;
    assert Moved(start, i, i) == start by { MovedNowhere(start, i); }
    while j + 1 < a.Length
      invariant i <= j < a.Length
      invariant a[..] == Moved(start, i, j) && AllPrepared(a[..])
      invariant forall k | 0 <= k < j - i :: !KeyLess(e.key, es[k].key)
    {
      assert a[j] == Moved(start, i, j)[j] == start[i];
      assert a[j + 1] == Moved(start, i, j)[j + 1..][0] == start[j + 1..][0] == start[j + 1];
      ElementPrepared(a[..], j);
      ElementPrepared(a[..], j + 1);
      var c := CompareSortKeys(a[j], a[j + 1]);
      CompareIsKeyLess(e.key, es[j - i].key);
      if c < 0 {
        break;
      }
      a[j], a[j + 1] := a[j + 1], a[j];
      assert a[..] == Moved(start, i, j)[j := start[j + 1]][j + 1 := start[i]];
      MovedNext(start, i, j);
      MovedPrepared(start, i, j + 1);
      j := j + 1;
    }
    InsertAt(e, es, j - i);
    MovedMembers(start, i, j);
    assert a[i..] == a[..][i..] && a[..i] == a[..][..i];
  }

  lemma MovedNowhere<T>(s: seq<T>, i: nat)
    requires i < |s|
    ensures Moved(s, i, i) == s
  {
  }

  lemma ElementPrepared(s: seq<SortableMember>, i: nat)
    requires i < |s| && AllPrepared(s)
    ensures Prepared(s[i])
  {
    hide Prepared;
  }

  lemma {:induction false} InsertAt(e: Entry<Value>, es: seq<Entry<Value>>, p: nat)
    requires p <= |es| && forall k | 0 <= k < p :: !KeyLess(e.key, es[k].key)
    requires p < |es| ==> KeyLess(e.key, es[p].key)
    ensures Insert(e, es) == es[..p] + ([e] + es[p..])
  {
    hide KeyLess;
    if p > 0 {
      InsertAt(e, es[1..], p - 1);
      assert es[..p] == [es[0]] + es[1..][..p - 1];
    }
  }

  lemma CompareIsKeyLess(a: ByteString, b: ByteString)
    ensures LexCompare(Key16(a), Key16(b)) < 0 <==> KeyLess(a, b)
  {
  }

  // ---------- values ----------

  /** The names in every object are valid and distinct, so that the order of members is determined. */
  ghost predicate Orderable(v: Value) {
    match v
    case VArray(elems) => forall e | e in elems :: Orderable(e)
    case VObject(members) => Sortable(members) && forall m | m in members :: Orderable(m.value)
    case _ => true
  }

  lemma {:induction false} ValidIsOrderable(v: Value)
    requires ValidValue(v)
    ensures Orderable(v)
  {
    hide ValidUtf8, CleanString;
    match v
    case VArray(elems) =>
      forall e | e in elems ensures Orderable(e) {
        ValidElemsAre(elems, e);
        ValidIsOrderable(e);
      }
    case VObject(members) =>
      ValidIsSortable(members);
      forall m | m in members ensures Orderable(m.value) {
        ValidMembersAre(members, m);
        ValidIsOrderable(m.value);
      }
    case _ =>
  }

  lemma ThenThen(a: ByteString, b: ByteString, r: Result<ByteString>)
    ensures Then(a, Then(b, r)) == Then(a + b, r)
  {
    if r.Ok? {
      assert a + (b + r.value) == (a + b) + r.value;
    }
  }

  /** Appends the canonical text of `v`. */
  method SerializeValue(buf: ByteString, v: Value, estimate: NonZero -> int) returns (r: Result<ByteString>)
    requires Orderable(v) && AdmissibleEstimate(estimate)
    ensures r == Then(buf, Emit(v))
    decreases v, 1
  {
    hide AdmissibleEstimate, FormatSpec, Quoted;
    match v {
      case VNull => return Ok(buf + NULL_TEXT);
      case VBool(text) => return Ok(buf + text);
      case VNumber(num) => r := SerializeNumber(buf, num, estimate);
      case VString(s) =>
        var out := SerializeString(buf, s);
        return Ok(out);
      case VArray(_) => r := SerializeArray(buf, v, estimate);
      case VObject(_) => r := SerializeObject(buf, v, estimate);
      case VUnknown(_) => return Err(InternalError);
    }
  }

  method SerializeArray(buf: ByteString, v: Value, estimate: NonZero -> int) returns (r: Result<ByteString>)
    requires v.VArray? && Orderable(v) && AdmissibleEstimate(estimate)
    ensures r == Then(buf, Emit(v))
    decreases v, 0
  {
    hide AdmissibleEstimate, Orderable, Emit;
    ArrayEmission(v);
    var out := buf + [LEFT_BRACKET];
    ThenThen(buf, [LEFT_BRACKET], EmitElems(v.elems, true));
    var i := 0;
    while i < |v.elems|
      invariant 0 <= i <= |v.elems|
      invariant Then(out, EmitElems(v.elems[i..], i == 0)) == Then(buf, Emit(v))
    {
      ghost var was, rest := out, EmitElems(v.elems[i + 1..], false);
      if i > 0 {
        out := out + [COMMA];
      }
      assert out == was + Separator(i == 0);
      assert v.elems[i..][1..] == v.elems[i + 1..];
      r := SerializeValue(out, v.elems[i], estimate);
      if r.Err? {
        return;
      }
      ghost var t := Emit(v.elems[i]).value;
      ThenThen(was, Separator(i == 0) + t, rest);
      assert r.value == was + (Separator(i == 0) + t);
      out := r.value;
      i := i + 1;
    }
    out := out + [RIGHT_BRACKET];
    return Ok(out);
  }

  lemma ArrayEmission(v: Value)
    requires v.VArray? && Orderable(v)
    ensures Emit(v) == Then([LEFT_BRACKET], EmitElems(v.elems, true))
    ensures forall i | 0 <= i < |v.elems| :: Orderable(v.elems[i])
  {
    hide EmitElems;
  }

  lemma ObjectEmission(v: Value)
    requires v.VObject? && Orderable(v)
    ensures Sortable(v.members) && StrictlySorted(Sort(v.members))
    ensures SameElements(Sort(v.members), v.members)
    ensures Emit(v) == Then([LEFT_BRACE], EmitSorted(MapEntries(Emit, Sort(v.members)), true))
    ensures forall m | m in v.members :: Orderable(m.value) && ValidUtf8(m.key)
  {
    hide EmitSorted, ValidUtf8;
    SortSorted(v.members);
    SortElements(v.members);
    SortedForms(v.members);
  }

  /** The members with their sort keys. */
  method PrepareMembers(members: seq<Entry<Value>>) returns (sorted: array<SortableMember>)
    ensures fresh(sorted) && MembersOf(sorted[..]) == members && AllPrepared(sorted[..])
  {
    sorted := new SortableMember[|members|](_ => SortableMember(Entry([], VNull), Unset));
    var i := 0;
    while i < |members|
      invariant 0 <= i <= |members| == sorted.Length
      invariant forall k | 0 <= k < i :: sorted[k].member == members[k] && Prepared(sorted[k])
    {
      hide Key16, IsAscii;
      var ascii := IsAsciiKey(members[i].key);
      sorted[i] := SortableMember(members[i], if ascii then Unset else Units(Key16(members[i].key)));
      i := i + 1;
    }
  }

  /** The members in the order of their names, whatever sort is used. */
  method SortedMembers(members: seq<Entry<Value>>) returns (sorted: array<SortableMember>)
    requires Sortable(members)
    ensures fresh(sorted) && MembersOf(sorted[..]) == Sort(members)
  {
    hide Sort, StrictlySorted, ValidUtf8, Prepared;
    sorted := PrepareMembers(members);
    SortSlice(sorted);
    SortSorted(members);
    SortElements(members);
    SortedUnique(MembersOf(sorted[..]), Sort(members));
  }

  /** One turn of the loop over sorted members. */
  lemma EmissionTurn(
    done: ByteString, order: seq<Entry<Value>>, i: nat, r: Result<ByteString>)
    requires i < |order|
    requires r == Then(done + Separator(i == 0) + Quoted(order[i].key) + [COLON], Emit(order[i].value))
    ensures var all := Then(done, EmitSorted(MapEntries(Emit, order)[i..], i == 0));
      if r.Err? then all == r
      else all == Then(r.value, EmitSorted(MapEntries(Emit, order)[i + 1..], false))
  {
    hide Emit, Quoted;
    var texts := MapEntries(Emit, order);
    assert texts[i..][0] == texts[i] && texts[i..][1..] == texts[i + 1..];
    if r.Ok? {
      var t := Emit(order[i].value).value;
      ThenThen(done, Separator(i == 0) + (Quoted(order[i].key) + ([COLON] + t)), EmitSorted(texts[i + 1..], false));
      Grouped(done, Separator(i == 0), Quoted(order[i].key), t);
    }
  }

  method SerializeObject(buf: ByteString, v: Value, estimate: NonZero -> int) returns (r: Result<ByteString>)
    requires v.VObject? && Orderable(v) && AdmissibleEstimate(estimate)
    ensures r == Then(buf, Emit(v))
    decreases v, 0
  {
    hide AdmissibleEstimate, Orderable, Emit, Sort, StrictlySorted, ValidUtf8, Quoted, EmitSorted, Sortable;
    ObjectEmission(v);
    var sorted := SortedMembers(v.members);
    ghost var order := Sort(v.members);
    ghost var texts := MapEntries(Emit, order);
    assert texts[0..] == texts;

    var out := buf + [LEFT_BRACE];
    ThenThen(buf, [LEFT_BRACE], EmitSorted(texts, true));
    var i := 0;
    while i < sorted.Length
      invariant 0 <= i <= sorted.Length && MembersOf(sorted[..]) == order
      invariant Then(out, EmitSorted(texts[i..], i == 0)) == Then(buf, Emit(v))
    {
      assert sorted[i].member == order[i] && order[i] in v.members;
      ghost var was := out;
      if i > 0 {
        out := out + [COMMA];
      }
      assert out == was + Separator(i == 0);
      out := SerializeString(out, sorted[i].member.key);
      out := out + [COLON];
      r := SerializeValue(out, sorted[i].member.value, estimate);
      EmissionTurn(was, order, i, r);
      if r.Err? {
        return;
      }
      out := r.value;
      i := i + 1;
    }
    assert EmitSorted(texts[i..], i == 0) == Ok([RIGHT_BRACE]) by {
      NoMoreMembers(texts[i..], i == 0);
    }
    out := out + [RIGHT_BRACE];
    return Ok(out);
  }

  lemma NoMoreMembers(texts: seq<Entry<Result<ByteString>>>, first: bool)
    requires texts == []
    ensures EmitSorted(texts, first) == Ok([RIGHT_BRACE])
  {
  }

  lemma Grouped(a: ByteString, sep: ByteString, k: ByteString, t: ByteString)
    ensures a + sep + k + [COLON] + t == a + (sep + (k + ([COLON] + t)))
  {
  }

  // ---------- entry points ----------

  /** Validation, then emission; nothing is written when validation fails. */
  ghost function SerializeSpec(v: Value, l: Limits): Result<ByteString> {
    match Validate(v, 0, 0, l)
    case Err(e) => Err(e)
    case Ok(_) => Emit(v)
  }

  ghost function CanonicalizeSpec(data: ByteString, l: Limits): Result<ByteString> {
    match ParseText(data, l)
    case Err(e) => Err(e)
    case Ok(v) => SerializeSpec(v, l)
  }

  method SerializeInto(buf: ByteString, v: Value, options: MaybeOptions, estimate: NonZero -> int)
    returns (r: Result<ByteString>)
    requires AdmissibleEstimate(estimate)
    ensures r == Then(buf, SerializeSpec(v, Resolve(options)))
  {
    hide Resolve, Emit, Orderable, AdmissibleEstimate;
    var limits := Resolve(options);
    var state := new ValidationState();
    var o := ValidateValueTree(v, 0, state, limits);
    if o.Fail? {
      return Err(o.failure);
    }
    ValidateExact(v, 0, 0, limits);
    ValidIsOrderable(v);
    r := SerializeValue(buf, v, estimate);
  }

  method SerializeWithOptions(v: Value, options: MaybeOptions, estimate: NonZero -> int)
    returns (r: Result<ByteString>)
    requires AdmissibleEstimate(estimate)
    ensures r == SerializeSpec(v, Resolve(options))
  {
    hide SerializeSpec, Resolve, AdmissibleEstimate;
    r := SerializeInto([], v, options, estimate);
    ThenNothing(SerializeSpec(v, Resolve(options)));
  }

  method Serialize(v: Value, estimate: NonZero -> int) returns (r: Result<ByteString>)
    requires AdmissibleEstimate(estimate)
    ensures r == SerializeSpec(v, DEFAULT_LIMITS)
  {
    r := SerializeWithOptions(v, NoOptions, estimate);
  }

  method CanonicalizeWithOptions(data: ByteString, options: MaybeOptions, estimate: NonZero -> int)
    returns (r: Result<ByteString>)
    requires AdmissibleEstimate(estimate)
    ensures r == CanonicalizeSpec(data, Resolve(options))
  {
    hide SerializeSpec, ParseText, Resolve, AdmissibleEstimate;
    var v := Parser.ParseWithOptions(data, options);
    if v.Err? {
      return Err(v.failure);
    }
    r := SerializeInto([], v.value, options, estimate);
    ThenNothing(SerializeSpec(v.value, Resolve(options)));
  }

  method Canonicalize(data: ByteString, estimate: NonZero -> int) returns (r: Result<ByteString>)
    requires AdmissibleEstimate(estimate)
    ensures r == CanonicalizeSpec(data, DEFAULT_LIMITS)
  {
    r := CanonicalizeWithOptions(data, NoOptions, estimate);
  }

  lemma ThenNothing(r: Result<ByteString>)
    ensures Then([], r) == r
  {
    if r.Ok? {
      assert [] + r.value == r.value;
    }
  }

  // ---------- verification of canonical form ----------

  /** Input verifies when canonicalizing it gives the same bytes. */
  ghost function VerifySpec(data: ByteString): Outcome {
    match CanonicalizeSpec(data, DEFAULT_LIMITS)
    case Err(e) => Fail(e)
    case Ok(out) => if out == data then Pass else Fail(NotCanonical)
  }

  method VerifyCanonical(data: ByteString, estimate: NonZero -> int) returns (o: Outcome)
    requires AdmissibleEstimate(estimate)
    ensures o == VerifySpec(data)
  {
    hide SerializeSpec, ParseText, AdmissibleEstimate;
    var parsed := Parser.Parse(data);
    if parsed.Err? {
      return Fail(parsed.failure);
    }
    var canonical := Serialize(parsed.value, estimate);
    match canonical {
      case Err(e) => return Fail(e);
      case Ok(out) => return if data != out then Fail(NotCanonical) else Pass;
    }
  }
}
