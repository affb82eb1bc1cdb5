/** Validation of a value tree before it is serialized. */
module Validation {
  import opened Bytes
  import opened Unicode
  import opened Doubles
  import opened Strings
  import opened Values

  // ---------- as a function of the tree ----------

  function CheckRunes(rs: seq<int>): Outcome {
    if rs == [] then Pass
    else
      match CheckRune(rs[0])
      case Err(e) => Fail(e)
      case Ok(_) => CheckRunes(rs[1..])
  }

  function CheckString(s: ByteString, maxBytes: nat): Outcome {
    if !ValidUtf8(s) then Fail(InvalidUtf8)
    else if |s| > maxBytes then Fail(BoundExceeded)
    else CheckRunes(Runes(s))
  }

  /** Validates the tree at `depth`, after `count` values; on success, the new count. */
  function Validate(v: Value, depth: nat, count: nat, l: Limits): Result<nat> {
    if count + 1 > l.maxValues then Err(BoundExceeded)
    else if depth > l.maxDepth then Err(BoundExceeded)
    else
      match v
      case VNull => Ok(count + 1)
      case VBool(text) => if text != TRUE_TEXT && text != FALSE_TEXT then Err(InvalidGrammar) else Ok(count + 1)
      case VNumber(num) => if num.NaN? || num.Inf? then Err(InvalidGrammar) else Ok(count + 1)
      case VString(s) =>
        (match CheckString(s, l.maxStringBytes)
         case Fail(e) => Err(e)
         case Pass => Ok(count + 1))
      case VArray(elems) =>
        if |elems| > l.maxArrayElements then Err(BoundExceeded)
        else ValidateElems(elems, depth + 1, count + 1, l)
      case VObject(members) =>
        if |members| > l.maxObjectMembers then Err(BoundExceeded)
        else ValidateMembers(members, depth + 1, count + 1, {}, l)
      case VUnknown(_) => Err(InternalError)
  }

  function ValidateElems(es: seq<Value>, depth: nat, count: nat, l: Limits): Result<nat> {
    if es == [] then Ok(count)
    else
      match Validate(es[0], depth, count, l)
      case Err(e) => Err(e)
      case Ok(c) => ValidateElems(es[1..], depth, c, l)
  }

  /** `seen` holds the names of the members before these. */
  function ValidateMembers(ms: seq<Entry<Value>>, depth: nat, count: nat, seen: set<ByteString>, l: Limits):
    Result<nat>
  {
    if ms == [] then Ok(count)
    else
      match CheckString(ms[0].key, l.maxStringBytes)
      case Fail(e) => Err(e)
      case Pass =>
        if ms[0].key in seen then Err(DuplicateKey)
        else
          match Validate(ms[0].value, depth, count, l)
          case Err(e) => Err(e)
          case Ok(c) => ValidateMembers(ms[1..], depth, c, seen + {ms[0].key}, l)
  }

  // ---------- on mutable state ----------

  class ValidationState {
    var values: nat

    constructor ()
      ensures values == 0
    {
      values := 0;
    }

    ghost predicate Follows(spec: Result<nat>, o: Outcome)
      reads this
    {
      match spec
      case Err(e) => o == Fail(e)
      case Ok(c) => o == Pass && values == c
    }
  }

  method ValidateString(s: ByteString, maxStringBytes: nat) returns (o: Outcome)
    ensures o == CheckString(s, maxStringBytes)
  {
    hide IsNoncharacter, DecodeRune;
    if !ValidUtf8(s) {
      return Fail(InvalidUtf8);
    }
    if |s| > maxStringBytes {
      return Fail(BoundExceeded);
    }
    var rest := s;
    while rest != []
      invariant CheckRunes(Runes(rest)) == CheckRunes(Runes(s))
      decreases |rest|
    {
      var (r, size) := DecodeRune(rest);
      assert Runes(rest)[1..] == Runes(rest[size..]);
      if IsNoncharacter(r) {
        return Fail(Noncharacter);
      }
      if 0xD800 <= r <= 0xDFFF {
        return Fail(LoneSurrogate);
      }
      rest := rest[size..];
    }
    return Pass;
  }

  method ValidateValueTree(v: Value, depth: nat, state: ValidationState, l: Limits) returns (o: Outcome)
    modifies state
    ensures state.Follows(Validate(v, depth, old(state.values), l), o)
    decreases v
  {
    state.values := state.values + 1;
    if state.values > l.maxValues {
      return Fail(BoundExceeded);
    }
    if depth > l.maxDepth {
      return Fail(BoundExceeded);
    }
    match v {
      case VNull => return Pass;
      case VBool(text) =>
        if text != TRUE_TEXT && text != FALSE_TEXT {
          return Fail(InvalidGrammar);
        }
        return Pass;
      case VNumber(num) =>
        if num.NaN? || num.Inf? {
          return Fail(InvalidGrammar);
        }
        return Pass;
      case VString(s) =>
        o := ValidateString(s, l.maxStringBytes);
      case VArray(elems) =>
        if |elems| > l.maxArrayElements {
          return Fail(BoundExceeded);
        }
        var i := 0;
        ghost var spec := ValidateElems(elems, depth + 1, state.values, l);
        while i < |elems|
          invariant 0 <= i <= |elems|
          invariant ValidateElems(elems[i..], depth + 1, state.values, l) == spec
        {
          o := ValidateValueTree(elems[i], depth + 1, state, l);
          if o.Fail? {
            return;
          }
          assert elems[i..][1..] == elems[i + 1..];
          i := i + 1;
        }
        return Pass;
      case VObject(members) =>
        if |members| > l.maxObjectMembers {
          return Fail(BoundExceeded);
        }
        var seen: set<ByteString> := {};
        var i := 0;
        ghost var spec := ValidateMembers(members, depth + 1, state.values, {}, l);
        while i < |members|
          invariant 0 <= i <= |members|
          invariant ValidateMembers(members[i..], depth + 1, state.values, seen, l) == spec
        {
          o := ValidateString(members[i].key, l.maxStringBytes);
          if o.Fail? {
            return;
          }
          if members[i].key in seen {
            return Fail(DuplicateKey);
          }
          seen := seen + {members[i].key};
          o := ValidateValueTree(members[i].value, depth + 1, state, l);
          if o.Fail? {
            return;
          }
          assert members[i..][1..] == members[i + 1..];
          i := i + 1;
        }
        return Pass;
      case VUnknown(_) => return Fail(InternalError);
    }
  }

  // ---------- what validation accepts ----------

  lemma {:induction false} CheckRunesExact(rs: seq<int>)
    requires AllScalars(rs)
    ensures CheckRunes(rs).Pass? <==> forall r | r in rs :: !IsNoncharacter(r)
  {
    hide IsNoncharacter;
    if rs != [] {
      CheckRunesExact(rs[1..]);
      assert forall r :: r in rs <==> r == rs[0] || r in rs[1..];
    }
  }

  lemma CheckStringExact(s: ByteString, maxBytes: nat)
    ensures CheckString(s, maxBytes).Pass? <==> CleanString(s) && |s| <= maxBytes
  {
    hide IsNoncharacter, Runes;
    if ValidUtf8(s) {
      RunesOfValid(s);
      CheckRunesExact(Runes(s));
    }
  }

  /** Validation accepts exactly the valid trees within the bounds, and counts their values. */
  lemma {:induction false} ValidateExact(v: Value, depth: nat, count: nat, l: Limits)
    ensures Validate(v, depth, count, l).Ok? <==>
      && ValidValue(v) && Fits(v, l)
      && depth + Height(v) <= l.maxDepth && count + Nodes(v) <= l.maxValues
    ensures Validate(v, depth, count, l).Ok? ==> Validate(v, depth, count, l).value == count + Nodes(v)
  {
    hide CheckString, CleanString;
    if count + 1 <= l.maxValues && depth <= l.maxDepth {
      match v
      case VString(s) => CheckStringExact(s, l.maxStringBytes);
      case VArray(elems) => ValidateElemsExact(elems, depth + 1, count + 1, l);
      case VObject(members) =>
        ValidateMembersExact(members, depth + 1, count + 1, {}, l);
      case _ =>
    }
  }

  lemma {:induction false} ValidateElemsExact(es: seq<Value>, depth: nat, count: nat, l: Limits)
    requires 1 <= depth <= l.maxDepth + 1 && count <= l.maxValues
    ensures ValidateElems(es, depth, count, l).Ok? <==>
      && ValidAll(es) && FitsAll(es, l)
      && depth - 1 + HeightAll(es) <= l.maxDepth && count + NodesAll(es) <= l.maxValues
    ensures ValidateElems(es, depth, count, l).Ok? ==>
      ValidateElems(es, depth, count, l).value == count + NodesAll(es)
  {
    hide Validate, Height, Nodes, Fits, ValidValue;
    if es != [] {
      ValidateExact(es[0], depth, count, l);
      if Validate(es[0], depth, count, l).Ok? {
        ValidateElemsExact(es[1..], depth, count + Nodes(es[0]), l);
      }
    }
  }

  ghost predicate FreshKeys(ms: seq<Entry<Value>>, seen: set<ByteString>) {
    Distinct(Keys(ms)) && forall k | k in Keys(ms) :: k !in seen
  }

  lemma FreshKeysStep(ms: seq<Entry<Value>>, seen: set<ByteString>)
    requires ms != []
    ensures FreshKeys(ms, seen) <==> ms[0].key !in seen && FreshKeys(ms[1..], seen + {ms[0].key})
  {
    var ks, tail := Keys(ms), Keys(ms[1..]);
    assert ks == [ms[0].key] + tail;
    if FreshKeys(ms, seen) {
      assert ks[0] in ks;
      forall k | k in tail ensures k !in seen + {ms[0].key} {
        var i :| 0 <= i < |tail| && tail[i] == k;
        assert ks[i + 1] == k;
      }
      forall i, j | 0 <= i < j < |tail| ensures tail[i] != tail[j] {
        assert ks[i + 1] != ks[j + 1];
      }
    }
    if ms[0].key !in seen && FreshKeys(ms[1..], seen + {ms[0].key}) {
      forall i, j | 0 <= i < j < |ks| ensures ks[i] != ks[j] {
        assert ks[j] == tail[j - 1] && tail[j - 1] in tail;
      }
    }
  }

  lemma {:induction false} ValidateMembersExact(
    ms: seq<Entry<Value>>, depth: nat, count: nat, seen: set<ByteString>, l: Limits)
    requires 1 <= depth <= l.maxDepth + 1 && count <= l.maxValues
    ensures ValidateMembers(ms, depth, count, seen, l).Ok? <==>
      && ValidMembers(ms) && FreshKeys(ms, seen) && FitsMembers(ms, l)
      && depth - 1 + HeightMembers(ms) <= l.maxDepth && count + NodesMembers(ms) <= l.maxValues
    ensures ValidateMembers(ms, depth, count, seen, l).Ok? ==>
      ValidateMembers(ms, depth, count, seen, l).value == count + NodesMembers(ms)
  {
    hide Validate, Height, Nodes, Fits, ValidValue, CheckString, CleanString;
    if ms == [] {
      assert FreshKeys(ms, seen) by {
        assert Keys(ms) == [];
      }
    } else {
      hide FreshKeys;
      CheckStringExact(ms[0].key, l.maxStringBytes);
      FreshKeysStep(ms, seen);
      ValidateExact(ms[0].value, depth, count, l);
      if Validate(ms[0].value, depth, count, l).Ok? {
        ValidateMembersExact(ms[1..], depth, count + Nodes(ms[0].value), seen + {ms[0].key}, l);
      }
    }
  }

  // ---------- what validation reports ----------

  ghost predicate StringFlaw(s: ByteString, c: FailureClass) {
    || (c == InvalidUtf8 && !ValidUtf8(s))
    || (c == Noncharacter && ValidUtf8(s) && exists r | r in Runes(s) :: IsNoncharacter(r))
  }

  /** Somewhere in the tree is something that failure class `c` stands for. */
  ghost predicate Flaw(v: Value, c: FailureClass) {
    match v
    case VNull => false
    case VBool(text) => c == InvalidGrammar && text != TRUE_TEXT && text != FALSE_TEXT
    case VNumber(num) => c == InvalidGrammar && !num.Finite?
    case VString(s) => StringFlaw(s, c)
    case VArray(elems) => exists e | e in elems :: Flaw(e, c)
    case VObject(members) =>
      || (c == DuplicateKey && !Distinct(Keys(members)))
      || (exists m | m in members :: StringFlaw(m.key, c) || Flaw(m.value, c))
    case VUnknown(_) => c == InternalError
  }

  ghost predicate WithinBounds(v: Value, depth: nat, count: nat, l: Limits) {
    Fits(v, l) && depth + Height(v) <= l.maxDepth && count + Nodes(v) <= l.maxValues
  }

  /** A failure is a bound that is exceeded, or names a flaw that the tree has. */
  ghost predicate Blames(r: Result<nat>, within: bool, flaw: bool) {
    r.Err? ==> if r.failure == BoundExceeded then !within else flaw
  }

  ghost function Class(r: Result<nat>): FailureClass {
    if r.Err? then r.failure else InternalError
  }

  lemma CheckStringBlames(s: ByteString, maxBytes: nat)
    ensures var o := CheckString(s, maxBytes);
      o.Fail? ==> if o.failure == BoundExceeded then |s| > maxBytes else StringFlaw(s, o.failure)
  {
    hide IsNoncharacter, Runes;
    if ValidUtf8(s) {
      RunesOfValid(s);
      CheckRunesBlames(Runes(s));
    }
  }

  lemma {:induction false} CheckRunesBlames(rs: seq<int>)
    requires AllScalars(rs)
    ensures CheckRunes(rs).Fail? ==> CheckRunes(rs) == Fail(Noncharacter) && exists r | r in rs :: IsNoncharacter(r)
  {
    if rs != [] {
      if IsNoncharacter(rs[0]) {
        assert rs[0] in rs;
      } else {
        CheckRunesBlames(rs[1..]);
      }
    }
  }

  lemma {:induction false} ValidateBlames(v: Value, depth: nat, count: nat, l: Limits)
    ensures var r := Validate(v, depth, count, l); Blames(r, WithinBounds(v, depth, count, l), Flaw(v, Class(r)))
  {
    hide CheckString, StringFlaw, Distinct, Keys;
    if count + 1 <= l.maxValues && depth <= l.maxDepth {
      match v
      case VString(s) => CheckStringBlames(s, l.maxStringBytes);
      case VArray(elems) =>
        if |elems| <= l.maxArrayElements {
          ElemsBlame(elems, depth + 1, count + 1, l);
        }
      case VObject(members) =>
        if |members| <= l.maxObjectMembers {
          MembersBlame(members, depth + 1, count + 1, {}, l);
        }
      case _ =>
    }
  }

  lemma {:induction false} ElemsBlame(es: seq<Value>, depth: nat, count: nat, l: Limits)
    requires 1 <= depth <= l.maxDepth + 1 && count <= l.maxValues
    ensures var r := ValidateElems(es, depth, count, l);
      Blames(r, FitsAll(es, l) && depth - 1 + HeightAll(es) <= l.maxDepth && count + NodesAll(es) <= l.maxValues,
             exists e | e in es :: Flaw(e, Class(r)))
  {
    hide Validate, Height, Nodes, Fits, Flaw, ValidValue;
    if es != [] {
      ValidateBlames(es[0], depth, count, l);
      ValidateExact(es[0], depth, count, l);
      assert es[0] in es;
      if Validate(es[0], depth, count, l).Ok? {
        ElemsBlame(es[1..], depth, count + Nodes(es[0]), l);
        assert forall e | e in es[1..] :: e in es;
      }
    }
  }

  ghost predicate MemberFlaw(m: Entry<Value>, c: FailureClass) {
    StringFlaw(m.key, c) || Flaw(m.value, c)
  }

  lemma {:induction false} MembersBlame(
    ms: seq<Entry<Value>>, depth: nat, count: nat, seen: set<ByteString>, l: Limits)
    requires 1 <= depth <= l.maxDepth + 1 && count <= l.maxValues
    ensures var r := ValidateMembers(ms, depth, count, seen, l);
      Blames(r, FitsMembers(ms, l) && depth - 1 + HeightMembers(ms) <= l.maxDepth
                && count + NodesMembers(ms) <= l.maxValues,
             (Class(r) == DuplicateKey && !FreshKeys(ms, seen)) || exists m | m in ms :: MemberFlaw(m, Class(r)))
    ensures FreshKeys(ms, {}) <==> Distinct(Keys(ms))
  {
    hide Validate, Height, Nodes, Fits, Flaw, ValidValue, CheckString, StringFlaw, FreshKeys;
    FreshFromNone(ms);
    if ms != [] {
      CheckStringBlames(ms[0].key, l.maxStringBytes);
      FreshKeysStep(ms, seen);
      ValidateBlames(ms[0].value, depth, count, l);
      ValidateExact(ms[0].value, depth, count, l);
      assert ms[0] in ms;
      if Validate(ms[0].value, depth, count, l).Ok? {
        MembersBlame(ms[1..], depth, count + Nodes(ms[0].value), seen + {ms[0].key}, l);
        assert forall m | m in ms[1..] :: m in ms;
      }
    }
  }

  lemma FreshFromNone(ms: seq<Entry<Value>>)
    ensures FreshKeys(ms, {}) <==> Distinct(Keys(ms))
  {
  }

  /** A tree within the bounds with flaws of one class is rejected with that class. */
  lemma OnlyFlawReported(v: Value, l: Limits, c: FailureClass)
    requires WithinBounds(v, 0, 0, l) && Flaw(v, c) && forall b :: Flaw(v, b) ==> b == c
    ensures Validate(v, 0, 0, l) == Err(c)
  {
    hide Validate, Fits, Height, Nodes, Flaw, ValidValue;
    ValidateBlames(v, 0, 0, l);
    ValidateExact(v, 0, 0, l);
    if ValidValue(v) {
      ValidHasNoFlaw(v, c);
    }
  }

  lemma {:induction false} ValidHasNoFlaw(v: Value, c: FailureClass)
    requires ValidValue(v)
    ensures !Flaw(v, c)
  {
    hide Distinct, Keys;
    match v
    case VArray(elems) =>
      forall e | e in elems ensures !Flaw(e, c) {
        ValidHasNoFlawElem(elems, e, c);
      }
    case VObject(members) =>
      forall m | m in members ensures !StringFlaw(m.key, c) && !Flaw(m.value, c) {
        ValidHasNoFlawMember(members, m, c);
      }
    case _ =>
  }

  lemma {:induction false} ValidHasNoFlawElem(es: seq<Value>, e: Value, c: FailureClass)
    requires ValidAll(es) && e in es
    ensures !Flaw(e, c)
    decreases es
  {
    hide Flaw, ValidValue;
    if e == es[0] {
      ValidHasNoFlaw(e, c);
    } else {
      ValidHasNoFlawElem(es[1..], e, c);
    }
  }

  lemma {:induction false} ValidHasNoFlawMember(ms: seq<Entry<Value>>, m: Entry<Value>, c: FailureClass)
    requires ValidMembers(ms) && m in ms
    ensures !StringFlaw(m.key, c) && !Flaw(m.value, c)
    decreases ms
  {
    hide Flaw, ValidValue, Runes, IsNoncharacter;
    if m == ms[0] {
      ValidHasNoFlaw(m.value, c);
    } else {
      ValidHasNoFlawMember(ms[1..], m, c);
    }
  }
}
