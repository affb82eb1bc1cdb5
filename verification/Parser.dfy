/** The recursive-descent parser on mutable state, as a refinement of `Parsing`. */
module Parser {
  import opened Bytes
  import opened Unicode
  import opened Doubles
  import opened Strings
  import opened Numbers
  import opened Values
  import opened Grammar
  import P = Parsing

  /** The value of the first `n` hexadecimal digits, as the digit loop accumulates it. */
  ghost function HexPrefix(h: ByteString, n: nat): nat
    requires n <= |h| && forall i | 0 <= i < n :: IsHexDigit(h[i])
  {
    if n == 0 then 0 else HexPrefix(h, n - 1) * 16 + HexValue(h[n - 1])
  }

  class Parser {
    const data: ByteString
    const limits: Limits
    var pos: nat
    var depth: nat
    var valueCount: nat

    constructor (data: ByteString, limits: Limits)
      ensures this.data == data && this.limits == limits
      ensures pos == 0 && depth == 0 && valueCount == 0
    {
      this.data := data;
      this.limits := limits;
      pos, depth, valueCount := 0, 0, 0;
    }

    ghost predicate Valid()
      reads this
    {
      pos <= |data|
    }

    /** The input not consumed yet. */
    ghost function Rest(): ByteString
      requires Valid()
      reads this
    {
      data[pos..]
    }

    method Peek() returns (b: Byte, ok: bool)
      requires Valid()
      ensures ok <==> Rest() != []
      ensures ok ==> b == Rest()[0]
    {
      if pos >= |data| {
        return 0, false;
      }
      return data[pos], true;
    }

    method Next() returns (b: Byte, ok: bool)
      requires Valid()
      modifies this`pos
      ensures Valid() && pos >= old(pos) && (ok <==> old(Rest()) != [])
      ensures ok ==> b == old(Rest())[0] && Rest() == old(Rest())[1..]
    {
      if pos >= |data| {
        return 0, false;
      }
      b := data[pos];
      pos := pos + 1;
      ok := true;
    }

    method Expect(b: Byte) returns (o: Outcome)
      requires Valid()
      modifies this`pos
      ensures Valid() && pos >= old(pos)
      ensures o.Pass? <==> old(Rest()) != [] && old(Rest())[0] == b
      ensures if o.Pass? then Rest() == old(Rest())[1..] else o == Fail(InvalidGrammar)
    {
      var c, ok := Next();
      if !ok {
        return Fail(InvalidGrammar);
      }
      if c != b {
        return Fail(InvalidGrammar);
      }
      return Pass;
    }

    method SkipWhitespace()
      requires Valid()
      modifies this`pos
      ensures Valid() && Rest() == P.SkipSpace(old(Rest())) && pos >= old(pos)
    {
      while pos < |data|
        invariant Valid() && pos >= old(pos)
        invariant P.SkipSpace(Rest()) == P.SkipSpace(old(Rest()))
        decreases |data| - pos
      {
        var b := data[pos];
        if b == 0x20 || b == 0x09 || b == 0x0A || b == 0x0D {
          assert Rest()[1..] == data[pos + 1..];
          pos := pos + 1;
        } else {
          return;
        }
      }
    }

    method PushDepth() returns (o: Outcome)
      modifies this`depth
      ensures depth == old(depth) + 1
      ensures o == if depth > limits.maxDepth then Fail(BoundExceeded) else Pass
    {
      depth := depth + 1;
      if depth > limits.maxDepth {
        return Fail(BoundExceeded);
      }
      return Pass;
    }

    method PopDepth()
      requires depth > 0
      modifies this`depth
      ensures depth == old(depth) - 1
    {
      depth := depth - 1;
    }

    /** What a value-parsing method promises: result, position, count and depth follow the specification. */
    ghost predicate Follows(spec: Result<P.Parsed>, r: Result<Value>, before: nat)
      reads this
    {
      && Valid()
      && match spec
         case Err(e) => r == Err(e)
         case Ok(p) => r == Ok(p.value) && Rest() == p.rest && valueCount == p.count && depth == before
    }

    method ParseValue() returns (r: Result<Value>)
      requires Valid()
      modifies this
      ensures pos >= old(pos) && depth >= old(depth)
      ensures Follows(old(P.ParseValue(Rest(), depth, valueCount, limits)), r, old(depth))
      decreases |data| - pos, 3
    {
      valueCount := valueCount + 1;
      if valueCount > limits.maxValues {
        return Err(BoundExceeded);
      }
      var c, ok := Peek();
      if !ok {
        return Err(InvalidGrammar);
      }
      if c == LEFT_BRACE {
        r := ParseObject();
      } else if c == LEFT_BRACKET {
        r := ParseArray();
      } else if c == QUOTE {
        r := ParseString();
      } else if c == 0x74 || c == 0x66 {
        r := ParseBool();
      } else if c == 0x6E {
        r := ParseNull();
      } else {
        r := ParseNumber();
      }
    }

    method ParseArray() returns (r: Result<Value>)
      requires Valid() && Rest() != [] && Rest()[0] == LEFT_BRACKET
      modifies this
      ensures pos >= old(pos) && depth >= old(depth)
      ensures Follows(old(P.ParseArray(Rest(), depth, valueCount, limits)), r, old(depth))
      decreases |data| - pos, 2
    {
      hide P.ParseElems, P.SkipSpace;
      var o := PushDepth();
      if o.Fail? {
        return Err(o.failure);
      }
      r := ParseBracketed();
      PopDepth();
    }

    /** An array once its depth is counted; the depth is given back on every path after this. */
    method ParseBracketed() returns (r: Result<Value>)
      requires Valid() && Rest() != [] && Rest()[0] == LEFT_BRACKET && 0 < depth <= limits.maxDepth
      modifies this
      ensures pos >= old(pos) && depth >= old(depth)
      ensures Follows(old(P.ParseArray(Rest(), depth - 1, valueCount, limits)), r, old(depth))
      decreases |data| - pos, 1
    {
      hide P.ParseElems, P.SkipSpace;
      var o := Expect(LEFT_BRACKET);
      SkipWhitespace();
      var c, ok := Peek();
      if !ok {
        return Err(InvalidGrammar);
      }
      if c == RIGHT_BRACKET {
        Advance();
        return Ok(VArray([]));
      }
      r := ParseArrayElements();
    }

    /** Consumes the byte just peeked at. */
    method Advance()
      requires Valid() && Rest() != []
      modifies this`pos
      ensures Valid() && pos == old(pos) + 1 && Rest() == old(Rest())[1..]
    {
      pos := pos + 1;
    }

    method ParseArrayElements() returns (r: Result<Value>)
      requires Valid()
      modifies this
      ensures Follows(old(P.ParseElems(Rest(), depth, valueCount, [], limits)), r, old(depth))
      ensures depth >= old(depth) && pos >= old(pos)
      decreases |data| - pos, 4
    {
      hide P.ParseElems, P.ParseValue, P.SkipSpace;
      var elems: seq<Value> := [];
      ghost var spec := P.ParseElems(Rest(), depth, valueCount, [], limits);
      while true
        invariant Valid() && depth == old(depth) && pos >= old(pos)
        invariant P.ParseElems(Rest(), depth, valueCount, elems, limits) == spec
        decreases |data| - pos
      {
        P.ElemsDefinition(Rest(), depth, valueCount, elems, limits);
        SkipWhitespace();
        var elem := ParseValue();
        if elem.Err? {
          return Err(elem.failure);
        }
        if |elems| >= limits.maxArrayElements {
          return Err(BoundExceeded);
        }
        elems := elems + [elem.value];
        SkipWhitespace();
        var c, ok := Peek();
        if !ok {
          return Err(InvalidGrammar);
        }
        if c == RIGHT_BRACKET {
          Advance();
          return Ok(VArray(elems));
        }
        if c == COMMA {
          Advance();
          continue;
        }
        return Err(InvalidGrammar);
      }
    }

    method ParseObject() returns (r: Result<Value>)
      requires Valid() && Rest() != [] && Rest()[0] == LEFT_BRACE
      modifies this
      ensures pos >= old(pos) && depth >= old(depth)
      ensures Follows(old(P.ParseObject(Rest(), depth, valueCount, limits)), r, old(depth))
      decreases |data| - pos, 2
    {
      hide P.ParseMembers, P.SkipSpace;
      var o := PushDepth();
      if o.Fail? {
        return Err(o.failure);
      }
      r := ParseBraced();
      PopDepth();
    }

    /** An object once its depth is counted. */
    method ParseBraced() returns (r: Result<Value>)
      requires Valid() && Rest() != [] && Rest()[0] == LEFT_BRACE && 0 < depth <= limits.maxDepth
      modifies this
      ensures pos >= old(pos) && depth >= old(depth)
      ensures Follows(old(P.ParseObject(Rest(), depth - 1, valueCount, limits)), r, old(depth))
      decreases |data| - pos, 1
    {
      hide P.ParseMembers, P.SkipSpace;
      var o := Expect(LEFT_BRACE);
      SkipWhitespace();
      var c, ok := Peek();
      if !ok {
        return Err(InvalidGrammar);
      }
      if c == RIGHT_BRACE {
        Advance();
        return Ok(VObject([]));
      }
      r := ParseObjectMembers();
    }

    ghost predicate FollowsName(spec: Result<Scanned>, r: Result<ByteString>)
      reads this
    {
      && Valid()
      && match spec
         case Err(e) => r == Err(e)
         case Ok(n) => r == Ok(n.str) && Rest() == n.rest
    }

    /** Reads a member name that is not among `seen`, and the colon after it. */
    method ParseMemberName(seen: set<ByteString>, ghost members: seq<Entry<Value>>) returns (r: Result<ByteString>)
      requires Valid() && forall k :: k in seen <==> k in Keys(members)
      modifies this
      ensures FollowsName(old(P.ScanName(Rest(), members, limits)), r)
      ensures depth == old(depth) && valueCount == old(valueCount) && pos >= old(pos)
      ensures r.Ok? ==> pos > old(pos) && r.value !in seen
    {
      hide P.SkipSpace, ScanString, Keys;
      SkipWhitespace();
      var key := ParseString();
      if key.Err? {
        return Err(key.failure);
      }
      var name := key.value.str;
      if name in seen {
        return Err(DuplicateKey);
      }
      SkipWhitespace();
      var o := Expect(COLON);
      if o.Fail? {
        return Err(o.failure);
      }
      return Ok(name);
    }

    method ParseObjectMembers() returns (r: Result<Value>)
      requires Valid()
      modifies this
      ensures Follows(old(P.ParseMembers(Rest(), depth, valueCount, [], limits)), r, old(depth))
      ensures depth >= old(depth) && pos >= old(pos)
      decreases |data| - pos, 4
    {
      hide P.ParseMembers, P.ParseValue, P.SkipSpace, P.ScanName, Keys;
      var members: seq<Entry<Value>> := [];
      var seen: set<ByteString> := {};
      NoKeys();
      ghost var spec := P.ParseMembers(Rest(), depth, valueCount, [], limits);
      while true
        invariant Valid() && depth == old(depth) && pos >= old(pos)
        invariant forall k :: k in seen <==> k in Keys(members)
        invariant P.ParseMembers(Rest(), depth, valueCount, members, limits) == spec
        decreases |data| - pos
      {
        P.MembersDefinition(Rest(), depth, valueCount, members, limits);
        var name := ParseMemberName(seen, members);
        if name.Err? {
          return Err(name.failure);
        }
        seen := seen + {name.value};
        SkipWhitespace();
        var val := ParseValue();
        if val.Err? {
          return Err(val.failure);
        }
        if |members| >= limits.maxObjectMembers {
          return Err(BoundExceeded);
        }
        KeysAppend(members, Entry(name.value, val.value));
        members := members + [Entry(name.value, val.value)];
        SkipWhitespace();
        var c, ok := Peek();
        if !ok {
          return Err(InvalidGrammar);
        }
        if c == RIGHT_BRACE {
          Advance();
          return Ok(VObject(members));
        }
        if c == COMMA {
          Advance();
          continue;
        }
        return Err(InvalidGrammar);
      }
    }

    method ParseBool() returns (r: Result<Value>)
      requires Valid()
      modifies this
      ensures pos >= old(pos) && depth >= old(depth)
      ensures Follows(old(P.ParseBool(Rest(), valueCount)), r, old(depth))
    {
      PrefixAt(data, pos, TRUE_TEXT);
      PrefixAt(data, pos, FALSE_TEXT);
      if pos + 4 <= |data| && data[pos..pos + 4] == TRUE_TEXT {
        pos := pos + 4;
        return Ok(VBool(TRUE_TEXT));
      }
      if pos + 5 <= |data| && data[pos..pos + 5] == FALSE_TEXT {
        pos := pos + 5;
        return Ok(VBool(FALSE_TEXT));
      }
      return Err(InvalidGrammar);
    }

    method ParseNull() returns (r: Result<Value>)
      requires Valid()
      modifies this
      ensures pos >= old(pos) && depth >= old(depth)
      ensures Follows(old(P.ParseNull(Rest(), valueCount)), r, old(depth))
    {
      PrefixAt(data, pos, NULL_TEXT);
      if pos + 4 <= |data| && data[pos..pos + 4] == NULL_TEXT {
        pos := pos + 4;
        return Ok(VNull);
      }
      return Err(InvalidGrammar);
    }

    // ---------- strings ----------

    method ParseString() returns (r: Result<Value>)
      requires Valid()
      modifies this
      ensures Follows(old(P.ParseStringValue(Rest(), valueCount, limits)), r, old(depth))
      ensures valueCount == old(valueCount) && depth == old(depth) && pos >= old(pos)
      ensures r.Ok? ==> r.value.VString? && pos > old(pos)
    {
      hide General, PlainRun;
      var o := Expect(QUOTE);
      if o.Fail? {
        return Err(o.failure);
      }
      ghost var body := Rest();
      var start := pos;
      SkipPlain();
      assert data[start..pos] == body[..PlainRun(body)] && Rest() == body[PlainRun(body)..];
      if pos < |data| && data[pos] == QUOTE {
        var s := data[start..pos];
        if |s| > limits.maxStringBytes {
          return Err(BoundExceeded);
        }
        assert body[PlainRun(body) + 1..] == data[pos + 1..];
        pos := pos + 1;
        return Ok(VString(s));
      }
      var scanned := ParseStringTail(data[start..pos]);
      match scanned {
        case Err(e) => return Err(e);
        case Ok(s) => return Ok(VString(s));
      }
    }

    /** The fast path: skips printable ASCII up to a quote, an escape, a control or a non-ASCII byte. */
    method SkipPlain()
      requires Valid()
      modifies this`pos
      ensures Valid() && pos == old(pos) + PlainRun(old(Rest()))
    {
      ghost var body := Rest();
      ghost var start := pos;
      while pos < |data|
        invariant Valid() && start <= pos
        invariant PlainRun(body) == pos - start + PlainRun(Rest())
        decreases |data| - pos
      {
        var b := data[pos];
        if b == QUOTE {
          return;
        }
        if b < 0x20 || b == BACKSLASH || b >= 0x80 {
          return;
        }
        assert Rest()[1..] == data[pos + 1..];
        pos := pos + 1;
      }
    }

    /** The general loop, seeded with the ASCII prefix already scanned. */
    method ParseStringTail(prefix: ByteString) returns (r: Result<ByteString>)
      requires Valid()
      modifies this`pos
      ensures Valid() && pos >= old(pos)
      ensures match old(General(Rest(), prefix, limits.maxStringBytes))
        case Err(e) => r == Err(e)
        case Ok(s) => r == Ok(s.str) && Rest() == s.rest
    {
      hide General, Escape, DecodeRune, EncodeRune, CheckRune;
      var buf := prefix;
      ghost var spec := General(Rest(), prefix, limits.maxStringBytes);
      while true
        invariant Valid() && pos >= old(pos)
        invariant General(Rest(), buf, limits.maxStringBytes) == spec
        decreases |data| - pos
      {
        GeneralDefinition(Rest(), buf, limits.maxStringBytes);
        if pos >= |data| {
          return Err(InvalidGrammar);
        }
        var b := data[pos];
        assert Rest()[1..] == data[pos + 1..];
        if b == QUOTE {
          pos := pos + 1;
          return Ok(buf);
        }
        if b == BACKSLASH {
          pos := pos + 1;
          var e := ParseEscape();
          if e.Err? {
            return Err(e.failure);
          }
          var c := CheckRune(e.value);
          if c.Err? {
            return Err(c.failure);
          }
          var encoded := EncodeRune(e.value);
          if |buf| + |encoded| > limits.maxStringBytes {
            return Err(BoundExceeded);
          }
          buf := buf + encoded;
          continue;
        }
        if b < 0x20 {
          return Err(InvalidGrammar);
        }
        var (rune, size) := DecodeRune(data[pos..]);
        if rune == RUNE_ERROR && size <= 1 {
          return Err(InvalidUtf8);
        }
        var c := CheckRune(rune);
        if c.Err? {
          return Err(c.failure);
        }
        if |buf| + size > limits.maxStringBytes {
          return Err(BoundExceeded);
        }
        assert data[pos..pos + size] == Rest()[..size] && data[pos + size..] == Rest()[size..];
        buf := buf + data[pos..pos + size];
        pos := pos + size;
      }
    }

    ghost predicate FollowsRune(spec: Result<Decoded>, r: Result<int>)
      reads this
    {
      && Valid()
      && match spec
         case Err(e) => r == Err(e)
         case Ok(d) => r == Ok(d.rune) && Rest() == d.rest
    }

    method ParseEscape() returns (r: Result<int>)
      requires Valid()
      modifies this`pos
      ensures FollowsRune(old(Escape(Rest())), r) && pos >= old(pos)
    {
      if pos >= |data| {
        return Err(InvalidGrammar);
      }
      var b := data[pos];
      pos := pos + 1;
      if b == 0x75 {
        r := ParseUnicodeEscape();
        return;
      }
      if !IsShortEscape(b) {
        return Err(InvalidGrammar);
      }
      return Ok(EscapedRune(b));
    }

    method ParseUnicodeEscape() returns (r: Result<int>)
      requires Valid()
      modifies this`pos
      ensures FollowsRune(old(UnicodeEscape(Rest())), r) && pos >= old(pos)
    {
      var r1 := ReadHexDigits();
      if r1.Err? {
        return Err(r1.failure);
      }
      if !IsSurrogate(r1.value) {
        return r1;
      }
      if r1.value >= 0xDC00 {
        return Err(LoneSurrogate);
      }
      if pos + 1 >= |data| || data[pos] != BACKSLASH || data[pos + 1] != 0x75 {
        return Err(LoneSurrogate);
      }
      assert Rest()[2..] == data[pos + 2..];
      pos := pos + 2;
      var r2 := ReadHexDigits();
      if r2.Err? {
        return Err(r2.failure);
      }
      if r2.value < 0xDC00 || r2.value > 0xDFFF {
        return Err(LoneSurrogate);
      }
      var decoded := DecodePair(r1.value, r2.value);
      assert decoded != RUNE_ERROR;
      return Ok(decoded);
    }

    method ReadHexDigits() returns (r: Result<int>)
      requires Valid()
      modifies this`pos
      ensures FollowsRune(old(ReadHex4(Rest())), r) && pos >= old(pos)
    {
      if pos + 4 > |data| {
        return Err(InvalidGrammar);
      }
      ghost var h := Rest()[..4];
      var val: nat := 0;
      var i := 0;
      while i < 4
        invariant 0 <= i <= 4 && Valid() && pos == old(pos)
        invariant forall k | 0 <= k < i :: IsHexDigit(h[k])
        invariant val == HexPrefix(h, i)
      {
        assert data[pos + i] == h[i];
        if !IsHexDigit(data[pos + i]) {
          return Err(InvalidGrammar);
        }
        val := val * 16 + HexValue(data[pos + i]);
        i := i + 1;
      }
      HexPrefixIsValue(h);
      assert Rest()[4..] == data[pos + 4..];
      pos := pos + 4;
      return Ok(val);
    }

    // ---------- numbers ----------

    /** A scanning step: the rest of the input follows the specification. */
    ghost predicate FollowsScan(spec: Result<ByteString>, o: Outcome)
      reads this
    {
      && Valid()
      && match spec
         case Err(e) => o == Fail(e)
         case Ok(rest) => o == Pass && Rest() == rest
    }

    method ParseNumber() returns (r: Result<Value>)
      requires Valid()
      modifies this
      ensures pos >= old(pos) && depth >= old(depth)
      ensures Follows(old(P.ParseNumberValue(Rest(), valueCount, limits)), r, old(depth))
    {
      hide ScanInteger, ScanFraction, ScanExponent, BuildNumber;
      var start := pos;
      ghost var s := Rest();
      if pos < |data| && data[pos] == MINUS {
        assert Rest()[1..] == data[pos + 1..];
        pos := pos + 1;
      }
      var o := ScanIntegerPart(start);
      if o.Fail? {
        return Err(o.failure);
      }
      o := ScanFractionPart(start);
      if o.Fail? {
        return Err(o.failure);
      }
      o := ScanExponentPart(start);
      if o.Fail? {
        return Err(o.failure);
      }
      if pos - start > limits.maxNumberChars {
        return Err(BoundExceeded);
      }
      var raw := data[start..pos];
      assert raw == s[..|s| - |Rest()|];
      r := BuildNumberValue(raw);
    }

    method ScanIntegerPart(numStart: nat) returns (o: Outcome)
      requires Valid() && numStart <= pos
      modifies this`pos
      ensures FollowsScan(old(ScanInteger(Rest(), |data| - numStart, limits.maxNumberChars)), o)
      ensures pos >= old(pos)
    {
      if pos >= |data| {
        return Fail(InvalidGrammar);
      }
      if data[pos] == ZERO {
        pos := pos + 1;
        if pos < |data| && IsDigit(data[pos]) {
          return Fail(InvalidGrammar);
        }
        return Pass;
      }
      if data[pos] < 0x31 || data[pos] > NINE {
        return Fail(InvalidGrammar);
      }
      assert Rest()[1..] == data[pos + 1..];
      o := ScanDigitRun(numStart);
    }

    /** Digits, failing as soon as the token is too long. */
    method ScanDigitRun(numStart: nat) returns (o: Outcome)
      requires Valid() && numStart <= pos
      modifies this`pos
      ensures FollowsScan(old(ScanDigits(Rest(), |data| - numStart, limits.maxNumberChars)), o)
      ensures pos >= old(pos)
    {
      ghost var spec := ScanDigits(Rest(), |data| - numStart, limits.maxNumberChars);
      while pos < |data| && IsDigit(data[pos])
        invariant Valid() && pos >= old(pos)
        invariant ScanDigits(Rest(), |data| - numStart, limits.maxNumberChars) == spec
        decreases |data| - pos
      {
        assert Rest()[1..] == data[pos + 1..];
        pos := pos + 1;
        if pos - numStart > limits.maxNumberChars {
          return Fail(BoundExceeded);
        }
      }
      return Pass;
    }

    method ScanFractionPart(numStart: nat) returns (o: Outcome)
      requires Valid() && numStart <= pos
      modifies this`pos
      ensures FollowsScan(old(ScanFraction(Rest(), |data| - numStart, limits.maxNumberChars)), o)
      ensures pos >= old(pos)
    {
      if pos >= |data| || data[pos] != POINT {
        return Pass;
      }
      assert Rest()[1..] == data[pos + 1..];
      pos := pos + 1;
      if pos >= |data| || !IsDigit(data[pos]) {
        return Fail(InvalidGrammar);
      }
      o := ScanDigitRun(numStart);
    }

    method ScanExponentPart(numStart: nat) returns (o: Outcome)
      requires Valid() && numStart <= pos
      modifies this`pos
      ensures FollowsScan(old(ScanExponent(Rest(), |data| - numStart, limits.maxNumberChars)), o)
      ensures pos >= old(pos)
    {
      if pos >= |data| || !IsExponentMark(data[pos]) {
        return Pass;
      }
      assert Rest()[1..] == data[pos + 1..];
      pos := pos + 1;
      if pos < |data| && (data[pos] == PLUS || data[pos] == MINUS) {
        assert Rest()[1..] == data[pos + 1..];
        pos := pos + 1;
      }
      if pos >= |data| || !IsDigit(data[pos]) {
        return Fail(InvalidGrammar);
      }
      o := ScanDigitRun(numStart);
    }

    method BuildNumberValue(raw: ByteString) returns (r: Result<Value>)
      ensures r == match BuildNumber(raw)
        case Err(e) => Err(e)
        case Ok(f) => Ok(VNumber(f))
    {
      var f := ParseFloat(raw);
      if f.NaN? || f.Inf? {
        return Err(NumberOverflow);
      }
      var zero := RepresentsZero(raw);
      if raw != [] && raw[0] == MINUS && zero {
        return Err(NumberNegZero);
      }
      if f.magnitude == 0 && !zero {
        return Err(NumberUnderflow);
      }
      return Ok(VNumber(f));
    }

    method RepresentsZero(raw: ByteString) returns (zero: bool)
      ensures zero == TokenRepresentsZero(raw)
    {
      var start := if |raw| > 0 && raw[0] == MINUS then 1 else 0;
      var end := |raw|;
      var i := start;
      while i < |raw|
        invariant start <= i <= |raw| == end
        invariant forall k | start <= k < i :: !IsExponentMark(raw[k])
      {
        if IsExponentMark(raw[i]) {
          end := i;
          break;
        }
        i := i + 1;
      }
      assert end == |raw| || IsExponentMark(raw[end]);
      i := start;
      while i < end
        invariant start <= i <= end
        invariant ZeroSignificand(raw[start..]) == ZeroSignificand(raw[i..])
      {
        if 0x31 <= raw[i] <= NINE {
          return false;
        }
        assert raw[i..][1..] == raw[i + 1..];
        i := i + 1;
      }
      return true;
    }
  }

  lemma PrefixAt(data: ByteString, pos: nat, word: ByteString)
    requires pos <= |data|
    ensures P.StartsWith(data[pos..], word) <==> pos + |word| <= |data| && data[pos..pos + |word|] == word
    ensures pos + |word| <= |data| ==> data[pos..][|word|..] == data[pos + |word|..]
  {
    if pos + |word| <= |data| {
      assert data[pos..pos + |word|] == data[pos..][..|word|];
    }
  }

  lemma NoKeys()
    ensures Keys<Value>([]) == []
  {
  }

  lemma KeysAppend(members: seq<Entry<Value>>, e: Entry<Value>)
    ensures Keys(members + [e]) == Keys(members) + [e.key]
  {
  }

  lemma HexPrefixIsValue(h: ByteString)
    requires IsHex4(h)
    ensures HexPrefix(h, 4) == Hex4Value(h)
  {
    assert HexPrefix(h, 1) == HexValue(h[0]);
    assert HexPrefix(h, 2) == HexValue(h[0]) * 16 + HexValue(h[1]);
    assert HexPrefix(h, 3) == HexPrefix(h, 2) * 16 + HexValue(h[2]);
  }

  /** Parses a complete JSON text: accepts and returns exactly what `Parsing.ParseText` does. */
  method ParseWithOptions(data: ByteString, options: MaybeOptions) returns (r: Result<Value>)
    ensures r == P.ParseText(data, Resolve(options))
  {
    var limits := Resolve(options);
    if |data| > limits.maxInputSize {
      return Err(BoundExceeded);
    }
    if !ValidUtf8(data) {
      return Err(InvalidUtf8);
    }
    var p := new Parser(data, limits);
    assert p.Rest() == data;
    p.SkipWhitespace();
    r := p.ParseValue();
    if r.Err? {
      return;
    }
    p.SkipWhitespace();
    if p.pos != |p.data| {
      return Err(InvalidGrammar);
    }
  }

  method Parse(data: ByteString) returns (r: Result<Value>)
    ensures r == P.ParseText(data, DEFAULT_LIMITS)
  {
    r := ParseWithOptions(data, NoOptions);
  }
}
