/** The characters of the grammar, written as characters. */
module Alphabet {
  import opened Bytes
  import opened Unicode
  import opened Strings
  import opened Numbers
  import opened Grammar

  function Codes(s: string): seq<int> {
    seq(|s|, i requires 0 <= i < |s| => s[i] as int)
  }

  lemma Words()
    ensures NULL_TEXT == Codes("null") && TRUE_TEXT == Codes("true") && FALSE_TEXT == Codes("false")
    ensures [LEFT_BRACKET, RIGHT_BRACKET, LEFT_BRACE, RIGHT_BRACE, COLON, COMMA] == Codes("[]{}:,")
    ensures [QUOTE, BACKSLASH, SLASH] == Codes("\"\\/")
    ensures [MINUS, PLUS, POINT, ZERO, NINE, LOWER_E, UPPER_E] == Codes("-+.09eE")
  {
  }

  /** Section 2 of RFC 8259: space, tab, line feed and carriage return. */
  lemma SpaceIs(b: int)
    ensures IsSpace(b) <==> b in Codes(" \t\n\r")
  {
    var s := Codes(" \t\n\r");
    assert s == [0x20, 0x09, 0x0A, 0x0D];
  }

  /** The letters after a backslash, and what they denote in that order; 8 is backspace and 12 form feed. */
  function EscapeLetters(): seq<int> {
    Codes("\"\\/bfnrt")
  }

  function EscapedCodes(): seq<int> {
    Codes("\"\\/") + [8, 12] + Codes("\n\r\t")
  }

  /** Section 7 of RFC 8259. */
  lemma ShortEscapesAre(b: int)
    ensures IsShortEscape(b) <==> b in EscapeLetters()
    ensures |EscapeLetters()| == |EscapedCodes()| == 8
    ensures forall i | 0 <= i < 8 ::
      IsShortEscape(EscapeLetters()[i]) && EscapedRune(EscapeLetters()[i]) == EscapedCodes()[i]
  {
    assert EscapeLetters() == [0x22, 0x5C, 0x2F, 0x62, 0x66, 0x6E, 0x72, 0x74];
    assert EscapedCodes() == [0x22, 0x5C, 0x2F, 0x08, 0x0C, 0x0A, 0x0D, 0x09];
  }

  lemma HexDigitIs(v: nat)
    requires v < 16
    ensures HexDigit(v) == Codes("0123456789abcdef")[v]
  {
    assert Codes("0123456789abcdef") ==
      [0x30, 0x31, 0x32, 0x33, 0x34, 0x35, 0x36, 0x37, 0x38, 0x39, 0x61, 0x62, 0x63, 0x64, 0x65, 0x66];
  }

  lemma DigitIs(b: int)
    ensures IsDigit(b) <==> b in Codes("0123456789")
    ensures IsExponentMark(b) <==> b in Codes("eE")
  {
    var s := Codes("0123456789");
    assert s == [0x30, 0x31, 0x32, 0x33, 0x34, 0x35, 0x36, 0x37, 0x38, 0x39];
    assert Codes("eE") == [0x65, 0x45];
  }

  /** The noncharacters: 32 in one block, and the last two of each of the seventeen planes. */
  lemma NoncharactersAre(r: int)
    ensures IsNoncharacter(r) <==>
      || 0xFDD0 <= r < 0xFDD0 + 32
      || exists plane: nat :: plane <= 16 && (r == plane * 0x10000 + 0xFFFE || r == plane * 0x10000 + 0xFFFF)
  {
    if 0 <= r <= 0x10FFFF && r % 0x10000 >= 0xFFFE {
      var plane := r / 0x10000;
      assert plane <= 16 && (r == plane * 0x10000 + 0xFFFE || r == plane * 0x10000 + 0xFFFF);
    }
  }
}
