/** Bounds longer than the input are never exceeded: a bound is reported only where one is smaller. */
module Room {
  import opened Bytes
  import opened Unicode
  import opened Strings
  import opened Numbers
  import opened Values
  import opened Grammar
  import opened Parsing
  import opened Tightening

  // ---------- strings and numbers ----------

  /** What a turn decodes is no longer than what it reads. */
  lemma TurnShrinks(s: ByteString, buf: ByteString, n: nat)
    requires |buf| + |s| <= n
    ensures var t := GeneralTurn(s, buf, n);
      t != Stop(Err(BoundExceeded)) && (t.Go? ==> |t.buf| + |t.rest| <= n)
  {
    hide DecodeRune, EncodeRune, IsNoncharacter, Hex4Value, Escape;
    if s != [] && s[0] == BACKSLASH {
      EscapeShrinks(s[1..]);
    }
  }

  lemma EscapeShrinks(s: ByteString)
    ensures Escape(s) != Err(BoundExceeded)
    ensures var e := Escape(s);
      e.Ok? && Scalar(e.value.rune) ==> |EncodeRune(e.value.rune)| + |e.value.rest| <= 1 + |s|
  {
    hide Hex4Value, DecodePair;
    ShortAscii();
  }

  lemma ShortAscii()
    ensures forall b | IsShortEscape(b) :: 0 <= EscapedRune(b) < 0x80
  {
  }

  lemma {:induction false} GeneralHasRoom(s: ByteString, buf: ByteString, n: nat)
    requires |buf| + |s| <= n
    ensures General(s, buf, n) != Err(BoundExceeded)
    decreases |s|
  {
    hide General, GeneralTurn;
    GeneralDefinition(s, buf, n);
    TurnShrinks(s, buf, n);
    var t := GeneralTurn(s, buf, n);
    if t.Go? {
      GeneralHasRoom(t.rest, t.buf, n);
    }
  }

  lemma StringHasRoom(s: ByteString, n: nat)
    requires |s| <= n
    ensures ScanString(s, n) != Err(BoundExceeded)
  {
    hide General;
    if s != [] {
      var p := PlainRun(s[1..]);
      GeneralHasRoom(s[1..][p..], s[1..][..p], n);
    }
  }

  lemma {:induction false} DigitsHaveRoom(s: ByteString, total: nat, n: int)
    requires total <= n
    ensures ScanDigits(s, total, n).Ok?
  {
    if s != [] {
      DigitsHaveRoom(s[1..], total, n);
    }
  }

  lemma NumberHasRoom(s: ByteString, n: int)
    requires |s| <= n
    ensures ScanNumber(s, n) != Err(BoundExceeded)
  {
    hide ScanDigits, ParseFloat, TokenRepresentsZero;
    forall t: ByteString ensures ScanDigits(t, |s|, n).Ok? {
      DigitsHaveRoom(t, |s|, n);
    }
  }

  // ---------- values ----------

  ghost predicate Roomy(l: Limits, n: nat) {
    && l.maxDepth >= n && l.maxValues >= n && l.maxObjectMembers >= n && l.maxArrayElements >= n
    && l.maxStringBytes >= n && l.maxNumberChars >= n
  }

  /** No bound is reached, and values are counted no faster than bytes are read. */
  ghost predicate HasRoom(r: Result<Parsed>, s: ByteString, count: nat) {
    r != Err(BoundExceeded) && (r.Ok? ==> r.value.count + |r.value.rest| <= count + |s|)
  }

  lemma {:induction false} ValueHasRoom(s: ByteString, depth: nat, count: nat, l: Limits, n: nat)
    requires Roomy(l, n) && depth + |s| <= n && count + |s| + 1 <= n
    ensures HasRoom(ParseValue(s, depth, count, l), s, count)
    decreases |s|, 3
  {
    hide ScanString, ScanNumber, ParseElems, ParseMembers, SkipSpace;
    if s != [] {
      var t := SkipSpace(s[1..]);
      if s[0] == LEFT_BRACE {
        MembersHaveRoom(t, depth + 1, count + 1, [], l, n);
      } else if s[0] == LEFT_BRACKET {
        ElemsHaveRoom(t, depth + 1, count + 1, [], l, n);
      } else if s[0] == QUOTE {
        StringHasRoom(s, l.maxStringBytes);
      } else {
        NumberHasRoom(s, l.maxNumberChars);
      }
    }
  }

  lemma {:induction false} ElemsHaveRoom(
    s: ByteString, depth: nat, count: nat, elems: seq<Value>, l: Limits, n: nat)
    requires Roomy(l, n) && depth + |s| <= n && count + |s| + 1 <= n && |elems| + |s| < n
    ensures HasRoom(ParseElems(s, depth, count, elems, l), s, count)
    decreases |s|, 4
  {
    hide ParseValue, ParseElems, SkipSpace;
    ElemsDefinition(s, depth, count, elems, l);
    var r := ParseValue(SkipSpace(s), depth, count, l);
    ValueHasRoom(SkipSpace(s), depth, count, l, n);
    var t := ElemTurn(r, elems, l);
    if t.GoElems? {
      ElemsHaveRoom(t.rest, depth, t.count, t.elems, l, n);
    }
  }

  lemma {:induction false} MembersHaveRoom(
    s: ByteString, depth: nat, count: nat, members: seq<Entry<Value>>, l: Limits, n: nat)
    requires Roomy(l, n) && depth + |s| <= n && count + |s| + 1 <= n && |members| + |s| < n
    ensures HasRoom(ParseMembers(s, depth, count, members, l), s, count)
    decreases |s|, 4
  {
    hide ParseValue, ParseMembers, SkipSpace, ScanString, Keys;
    MembersDefinition(s, depth, count, members, l);
    StringHasRoom(SkipSpace(s), l.maxStringBytes);
    var name := ScanName(s, members, l);
    if name.Ok? {
      var v := SkipSpace(name.value.rest);
      ValueHasRoom(v, depth, count, l, n);
      var t := MemberTurn(name.value.str, ParseValue(v, depth, count, l), members, l);
      if t.GoMembers? {
        MembersHaveRoom(t.rest, depth, t.count, t.members, l, n);
      }
    }
  }

  /** A bound is reported only if some bound is not greater than the input is long. */
  lemma BoundIsReal(data: ByteString, l: Limits)
    requires ParseText(data, l) == Err(BoundExceeded)
    ensures !Within(Uniform(|data| + 1), l)
  {
    hide ParseValue, SkipSpace, ValidUtf8;
    if Within(Uniform(|data| + 1), l) {
      ValueHasRoom(SkipSpace(data), 0, 0, l, |data| + 1);
    }
  }
}
