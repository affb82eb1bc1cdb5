/** Every failure of the parser, by its class: what it says about the input. */
module Failures {
  import opened Bytes
  import opened Unicode
  import opened Strings
  import opened Numbers
  import opened Values
  import opened Grammar
  import opened Parsing
  import opened Tightening
  import opened Faults
  import opened Blame
  import opened Room

  ghost predicate IsParseFailure(c: FailureClass) {
    c == InvalidUtf8 || c == InvalidGrammar || c == BoundExceeded || IsTreeFault(c)
  }

  ghost predicate Usual<T>(r: Result<T>) {
    r.Err? ==> IsParseFailure(r.failure)
  }

  lemma {:induction false} GeneralIsUsual(s: ByteString, buf: ByteString, maxBytes: nat)
    ensures Usual(General(s, buf, maxBytes))
    decreases |s|
  {
    hide DecodeRune, EncodeRune, Hex4Value, IsNoncharacter;
    var turn := GeneralTurn(s, buf, maxBytes);
    if turn.Go? {
      GeneralIsUsual(turn.rest, turn.buf, maxBytes);
    }
  }

  lemma StringIsUsual(s: ByteString, maxBytes: nat)
    ensures Usual(ScanString(s, maxBytes))
  {
    hide General;
    if s != [] {
      var p := PlainRun(s[1..]);
      GeneralIsUsual(s[1..][p..], s[1..][..p], maxBytes);
    }
  }

  lemma {:induction false} ValueIsUsual(s: ByteString, depth: nat, count: nat, l: Limits)
    ensures Usual(ParseValue(s, depth, count, l))
    decreases |s|, 3
  {
    hide ScanString, ScanNumber, ParseElems, ParseMembers, SkipSpace;
    StringIsUsual(s, l.maxStringBytes);
    NumberFails(s, l.maxNumberChars);
    if s != [] {
      var t := SkipSpace(s[1..]);
      ElemsAreUsual(t, depth + 1, count + 1, [], l);
      MembersAreUsual(t, depth + 1, count + 1, [], l);
    }
  }

  lemma {:induction false} ElemsAreUsual(s: ByteString, depth: nat, count: nat, elems: seq<Value>, l: Limits)
    ensures Usual(ParseElems(s, depth, count, elems, l))
    decreases |s|, 4
  {
    hide ParseValue, ParseElems, SkipSpace;
    ElemsDefinition(s, depth, count, elems, l);
    var r := ParseValue(SkipSpace(s), depth, count, l);
    ValueIsUsual(SkipSpace(s), depth, count, l);
    var t := ElemTurn(r, elems, l);
    if t.GoElems? {
      ElemsAreUsual(t.rest, depth, t.count, t.elems, l);
    }
  }

  lemma {:induction false} MembersAreUsual(
    s: ByteString, depth: nat, count: nat, members: seq<Entry<Value>>, l: Limits)
    ensures Usual(ParseMembers(s, depth, count, members, l))
    decreases |s|, 4
  {
    hide ParseValue, ParseMembers, SkipSpace, ScanString, Keys;
    MembersDefinition(s, depth, count, members, l);
    StringIsUsual(SkipSpace(s), l.maxStringBytes);
    var name := ScanName(s, members, l);
    if name.Ok? {
      var v := SkipSpace(name.value.rest);
      ValueIsUsual(v, depth, count, l);
      var t := MemberTurn(name.value.str, ParseValue(v, depth, count, l), members, l);
      if t.GoMembers? {
        MembersAreUsual(t.rest, depth, t.count, t.members, l);
      }
    }
  }

  /** Some text of the grammar begins like `data`, then only closes, and has `c` as its first fault. */
  ghost predicate HasFault(data: ByteString, c: FailureClass) {
    exists d :: ShapedDocument(d) && TreeFault(d.root) == Fail(c) && Continues(data, DocumentText(d))
  }

  /** `data` is a text of the grammar. */
  ghost predicate Grammatical(data: ByteString) {
    exists d :: ShapedDocument(d) && DocumentText(d) == data
  }

  /**
   * What each failure means: the encoding is wrong; the text is not of the grammar; some bound is not
   * greater than the input is long; or the input has the reported number, character or repeated name.
   */
  lemma FailureMeans(data: ByteString, l: Limits, c: FailureClass)
    requires ParseText(data, l) == Err(c)
    ensures IsParseFailure(c)
    ensures c == InvalidUtf8 ==> !ValidUtf8(data)
    ensures c == InvalidGrammar ==> ValidUtf8(data) && !Grammatical(data)
    ensures c == BoundExceeded ==> !Within(Uniform(|data| + 1), l)
    ensures IsTreeFault(c) ==> HasFault(data, c)
  {
    hide ParseText, TreeFault, DocumentText, Continues, ShapedDocument, ValidUtf8;
    EncodingRejectedExactly(data, l);
    TextIsUsual(data, l);
    if c == InvalidGrammar {
      GrammarFailuresAreReal(data, l);
      AfterEncoding(data, l);
    } else if c == BoundExceeded {
      BoundIsReal(data, l);
    } else if IsTreeFault(c) {
      var d := FaultIsReal(data, l, c);
    }
  }

  lemma TextIsUsual(data: ByteString, l: Limits)
    ensures Usual(ParseText(data, l))
  {
    hide ParseValue, SkipSpace, ValidUtf8;
    ValueIsUsual(SkipSpace(data), 0, 0, l);
  }

  lemma AfterEncoding(data: ByteString, l: Limits)
    requires ParseText(data, l) == Err(InvalidGrammar)
    ensures ValidUtf8(data)
  {
    hide ParseValue, SkipSpace, ValidUtf8;
  }

  lemma ParsedIsGrammatical(data: ByteString, l: Limits)
    requires ParseText(data, l).Ok?
    ensures Grammatical(data)
  {
    hide ParseText, ShapedDocument, DocumentText, DocumentFits;
    var d := ParsedIsDerived(data, l);
  }

  /** With bounds longer than the input, what is not of the grammar and has no fault before is a grammar failure. */
  lemma GrammarReported(data: ByteString, l: Limits)
    requires ValidUtf8(data) && !Grammatical(data) && Within(Uniform(|data| + 1), l)
    requires forall c | IsTreeFault(c) :: !HasFault(data, c)
    ensures ParseText(data, l) == Err(InvalidGrammar)
  {
    hide ParseText, HasFault, ValidUtf8, ShapedDocument, DocumentText;
    if ParseText(data, l).Ok? {
      ParsedIsGrammatical(data, l);
    } else {
      FailureMeans(data, l, ParseText(data, l).failure);
    }
  }
}
