/**
 * Narrower bounds only cut: under narrower bounds the outcome is the same, success or failure, or it
 * is that a bound is exceeded.
 */
module Tightening {
  import opened Bytes
  import opened Unicode
  import opened Strings
  import opened Numbers
  import opened Values
  import opened Grammar
  import opened Parsing
  import opened Unambiguous

  ghost predicate Cut<T>(narrow: Result<T>, wide: Result<T>) {
    narrow == wide || narrow == Err(BoundExceeded)
  }

  ghost predicate Within(l: Limits, w: Limits) {
    && l.maxDepth <= w.maxDepth && l.maxInputSize <= w.maxInputSize && l.maxValues <= w.maxValues
    && l.maxObjectMembers <= w.maxObjectMembers && l.maxArrayElements <= w.maxArrayElements
    && l.maxStringBytes <= w.maxStringBytes && l.maxNumberChars <= w.maxNumberChars
  }

  // ---------- strings and numbers ----------

  lemma TurnCut(s: ByteString, buf: ByteString, a: nat, b: nat)
    requires a <= b
    ensures GeneralTurn(s, buf, a) == GeneralTurn(s, buf, b) || GeneralTurn(s, buf, a) == Stop(Err(BoundExceeded))
  {
    hide Escape, CheckRune, DecodeRune, EncodeRune;
  }

  lemma {:induction false} GeneralCut(s: ByteString, buf: ByteString, a: nat, b: nat)
    requires a <= b
    ensures Cut(General(s, buf, a), General(s, buf, b))
    decreases |s|
  {
    hide General, GeneralTurn;
    GeneralDefinition(s, buf, a);
    GeneralDefinition(s, buf, b);
    TurnCut(s, buf, a, b);
    var t := GeneralTurn(s, buf, a);
    if t.Go? {
      GeneralCut(t.rest, t.buf, a, b);
    }
  }

  lemma ScanStringCut(s: ByteString, a: nat, b: nat)
    requires a <= b
    ensures Cut(ScanString(s, a), ScanString(s, b))
  {
    hide General;
    if s != [] {
      var p := PlainRun(s[1..]);
      GeneralCut(s[1..][p..], s[1..][..p], a, b);
    }
  }

  lemma {:induction false} ScanDigitsCut(s: ByteString, total: nat, a: nat, b: nat)
    requires a <= b
    ensures Cut(ScanDigits(s, total, a), ScanDigits(s, total, b))
  {
    if s != [] {
      ScanDigitsCut(s[1..], total, a, b);
    }
  }

  lemma PartsCut(s: ByteString, total: nat, a: nat, b: nat)
    requires a <= b
    ensures Cut(ScanInteger(s, total, a), ScanInteger(s, total, b))
    ensures Cut(ScanFraction(s, total, a), ScanFraction(s, total, b))
    ensures Cut(ScanExponent(s, total, a), ScanExponent(s, total, b))
  {
    hide ScanDigits;
    if s != [] {
      ScanDigitsCut(s[1..], total, a, b);
      if s[1..] != [] {
        ScanDigitsCut(s[1..][1..], total, a, b);
      }
    }
  }

  lemma ScanNumberCut(s: ByteString, a: nat, b: nat)
    requires a <= b
    ensures Cut(ScanNumber(s, a), ScanNumber(s, b))
  {
    hide ScanInteger, ScanFraction, ScanExponent, BuildNumber;
    var t := if s != [] && s[0] == MINUS then s[1..] else s;
    PartsCut(t, |s|, a, b);
    var u := ScanInteger(t, |s|, b);
    if u.Ok? {
      PartsCut(u.value, |s|, a, b);
      var v := ScanFraction(u.value, |s|, b);
      if v.Ok? {
        PartsCut(v.value, |s|, a, b);
      }
    }
  }

  // ---------- values ----------

  lemma {:induction false} ValueCut(s: ByteString, depth: nat, count: nat, l: Limits, w: Limits)
    requires Within(l, w)
    ensures Cut(ParseValue(s, depth, count, l), ParseValue(s, depth, count, w))
    decreases |s|, 3
  {
    hide ScanString, ScanNumber, ParseElems, ParseMembers, SkipSpace;
    if s != [] {
      var t := SkipSpace(s[1..]);
      if s[0] == LEFT_BRACE {
        MembersCut(t, depth + 1, count + 1, [], l, w);
      } else if s[0] == LEFT_BRACKET {
        ElemsCut(t, depth + 1, count + 1, [], l, w);
      } else if s[0] == QUOTE {
        ScanStringCut(s, l.maxStringBytes, w.maxStringBytes);
      } else {
        ScanNumberCut(s, l.maxNumberChars, w.maxNumberChars);
      }
    }
  }

  lemma {:induction false} ElemsCut(s: ByteString, depth: nat, count: nat, elems: seq<Value>, l: Limits, w: Limits)
    requires Within(l, w)
    ensures Cut(ParseElems(s, depth, count, elems, l), ParseElems(s, depth, count, elems, w))
    decreases |s|, 4
  {
    hide ParseValue, ParseElems, SkipSpace;
    ElemsDefinition(s, depth, count, elems, l);
    ElemsDefinition(s, depth, count, elems, w);
    ValueCut(SkipSpace(s), depth, count, l, w);
    var t := ElemTurn(ParseValue(SkipSpace(s), depth, count, w), elems, w);
    if t.GoElems? {
      ElemsCut(t.rest, depth, t.count, t.elems, l, w);
    }
  }

  lemma {:induction false} MembersCut(
    s: ByteString, depth: nat, count: nat, members: seq<Entry<Value>>, l: Limits, w: Limits)
    requires Within(l, w)
    ensures Cut(ParseMembers(s, depth, count, members, l), ParseMembers(s, depth, count, members, w))
    decreases |s|, 4
  {
    hide ParseValue, ParseMembers, SkipSpace, ScanName, MemberTurn;
    MembersDefinition(s, depth, count, members, l);
    MembersDefinition(s, depth, count, members, w);
    NameCut(s, members, l, w);
    var n := ScanName(s, members, w);
    if n.Ok? {
      var u := SkipSpace(n.value.rest);
      ValueCut(u, depth, count, l, w);
      MemberTurnCut(n.value.str, ParseValue(u, depth, count, l), ParseValue(u, depth, count, w), members, l, w);
      var t := MemberTurn(n.value.str, ParseValue(u, depth, count, w), members, w);
      if t.GoMembers? {
        MembersCut(t.rest, depth, t.count, t.members, l, w);
      }
    }
  }

  lemma NameCut(s: ByteString, members: seq<Entry<Value>>, l: Limits, w: Limits)
    requires Within(l, w)
    ensures Cut(ScanName(s, members, l), ScanName(s, members, w))
  {
    hide ScanString, SkipSpace, Keys;
    ScanStringCut(SkipSpace(s), l.maxStringBytes, w.maxStringBytes);
  }

  lemma MemberTurnCut(name: ByteString, r: Result<Parsed>, q: Result<Parsed>, members: seq<Entry<Value>>,
                      l: Limits, w: Limits)
    requires Within(l, w) && Cut(r, q)
    ensures var t, u := MemberTurn(name, r, members, l), MemberTurn(name, q, members, w);
      t == u || t == StopMembers(Err(BoundExceeded))
  {
    hide SkipSpace;
  }

  /** Tightening the bounds of a parse keeps its outcome or exceeds a bound. */
  lemma TextCut(data: ByteString, l: Limits, w: Limits)
    requires Within(l, w)
    ensures Cut(ParseText(data, l), ParseText(data, w))
  {
    hide ParseValue, SkipSpace, ValidUtf8;
    ValueCut(SkipSpace(data), 0, 0, l, w);
  }

  // ---------- texts of the grammar ----------

  function Widened(l: Limits, n: nat): Limits {
    Uniform(Max(n, Max(Max(Max(l.maxDepth, l.maxInputSize), Max(l.maxValues, l.maxObjectMembers)),
                       Max(Max(l.maxArrayElements, l.maxStringBytes), l.maxNumberChars))))
  }

  /**
   * A text of the grammar is accepted exactly when its one derivation is within the bounds; otherwise
   * a bound is exceeded.
   */
  lemma GrammaticalOutcome(d: Document, l: Limits)
    requires WellFormedDocument(d)
    ensures ParseText(DocumentText(d), l) ==
      if |DocumentText(d)| <= l.maxInputSize && DocumentFits(d, l) then Ok(Denote(d.root)) else Err(BoundExceeded)
  {
    hide ParseText, DocumentText, DocumentFits, Denote, WellFormedDocument;
    var text := DocumentText(d);
    if |text| <= l.maxInputSize && DocumentFits(d, l) {
      DerivedIsParsed(d, text, l, Denote(d.root));
    } else {
      var n := DocumentFitsSome(d);
      var w := Widened(l, n);
      DerivedIsParsed(d, text, w, Denote(d.root));
      TextCut(text, l, w);
      if ParseText(text, l).Ok? {
        var e := ParsedIsDerived(text, l);
        DerivationUnique(d, e);
      }
    }
  }
}
