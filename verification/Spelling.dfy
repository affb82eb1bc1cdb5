/**
 * How strings are written canonically, said without the table of escapes: every character as briefly
 * as the grammar allows, and hexadecimal digits in lower case. That determines the text.
 */
module Spelling {
  import opened Bytes
  import opened Unicode
  import opened Strings
  import opened CodeUnits
  import opened Unambiguous

  ghost predicate LowerHex(h: ByteString) {
    forall b | b in h :: 0x30 <= b <= 0x39 || 0x61 <= b <= 0x66
  }

  /** No spelling of the same character is shorter, and digits are in lower case. */
  ghost predicate CanonicalSpelling(i: Item) {
    && WellFormedItem(i)
    && (forall k | WellFormedItem(k) && ItemRune(k) == ItemRune(i) :: |ItemText(i)| <= |ItemText(k)|)
    && (i.Hex? ==> LowerHex(i.digits))
  }

  // ---------- one character ----------

  /** The lengths of the spellings. */
  lemma SpellingLength(i: Item)
    requires WellFormedItem(i)
    ensures |ItemText(i)| == match i
                             case Raw(r) => |EncodeRune(r)|
                             case Short(_) => 2
                             case Hex(_) => 6
                             case Pair(_, _) => 12
  {
    hide EncodeRune;
  }

  /** Which characters can be written raw, by a short escape, by one escape of four digits, or by two. */
  lemma Spellings(i: Item)
    requires WellFormedItem(i)
    ensures var r := ItemRune(i);
      && (i.Raw? ==> r == i.rune >= 0x20 && r != QUOTE && r != BACKSLASH)
      && (i.Short? ==> r in {QUOTE, BACKSLASH, SLASH, 0x08, 0x09, 0x0A, 0x0C, 0x0D})
      && (i.Hex? ==> r < 0x10000)
      && (i.Pair? ==> r >= 0x10000)
  {
    hide IsNoncharacter, Hex4Value;
  }

  lemma ShortLetters(a: Item, b: Item)
    requires WellFormedItem(a) && WellFormedItem(b) && a.Short? && b.Short? && ItemRune(a) == ItemRune(b)
    ensures a == b
  {
  }

  /** The canonical item is as short as any spelling of its character. */
  lemma CanonicalShortest(i: Item)
    requires WellFormedItem(i)
    ensures var c := CanonicalItem(ItemRune(i));
      WellFormedItem(c) && ItemRune(c) == ItemRune(i) && |ItemText(c)| <= |ItemText(i)|
  {
    hide IsNoncharacter, EncodeRune, ItemRune, ItemText, IsHex4;
    var r := ItemRune(i);
    var c := CanonicalItem(r);
    CanonicalItemCorrect(r);
    Spellings(i);
    SpellingLength(i);
    SpellingLength(c);
    if c.Raw? {
      assert r < 0x80 ==> |EncodeRune(r)| == 1;
    }
  }

  lemma CanonicalLower(r: int)
    requires Scalar(r)
    ensures CanonicalItem(r).Hex? ==> LowerHex(CanonicalItem(r).digits)
    ensures !CanonicalItem(r).Pair?
  {
  }

  /** In lower case a number has one spelling of four digits. */
  lemma LowerHexUnique(g: ByteString, h: ByteString)
    requires IsHex4(g) && IsHex4(h) && LowerHex(g) && LowerHex(h) && Hex4Value(g) == Hex4Value(h)
    ensures g == h
  {
    hide HexValue, Hex4Value, LowerHex;
    HexPlaces(g);
    HexPlaces(h);
    forall k | 0 <= k < 4 ensures g[k] == h[k] {
      LowerDigit(g, k);
      LowerDigit(h, k);
      LowerDigitUnique(g[k], h[k]);
    }
  }

  /** Each digit is a place of the value to the base sixteen. */
  lemma HexPlaces(h: ByteString)
    requires IsHex4(h)
    ensures var v := Hex4Value(h);
      && HexValue(h[0]) == v / 0x1000 && HexValue(h[1]) == v / 0x100 % 0x10
      && HexValue(h[2]) == v / 0x10 % 0x10 && HexValue(h[3]) == v % 0x10
  {
    hide HexValue;
    var a, b, c, d := HexValue(h[0]), HexValue(h[1]), HexValue(h[2]), HexValue(h[3]);
    var v := Hex4Value(h);
    assert v / 0x10 == (a * 16 + b) * 16 + c;
    assert v / 0x100 == a * 16 + b;
  }

  lemma LowerDigit(h: ByteString, k: nat)
    requires IsHex4(h) && LowerHex(h) && k < 4
    ensures IsHexDigit(h[k]) && (0x30 <= h[k] <= 0x39 || 0x61 <= h[k] <= 0x66)
  {
    assert h[k] in h;
  }

  lemma LowerDigitUnique(a: int, b: int)
    requires (0x30 <= a <= 0x39 || 0x61 <= a <= 0x66) && (0x30 <= b <= 0x39 || 0x61 <= b <= 0x66)
    requires HexValue(a) == HexValue(b)
    ensures a == b
  {
  }

  /** A digit is one of sixteen letters in lower case, or one of six in upper case for the same value. */
  lemma HexDigitsAre(b: int)
    ensures IsHexDigit(b) <==> exists v: nat :: v < 16 && (b == HexDigit(v) || (v >= 10 && b == HexDigit(v) - 0x20))
    ensures IsHexDigit(b) ==> b == HexDigit(HexValue(b)) || (HexValue(b) >= 10 && b == HexDigit(HexValue(b)) - 0x20)
  {
    if IsHexDigit(b) {
      var v := HexValue(b);
      assert v < 16 && (b == HexDigit(v) || (v >= 10 && b == HexDigit(v) - 0x20));
    }
  }

  /** The rules leave one spelling, the canonical item. */
  lemma SpellingExact(i: Item)
    ensures CanonicalSpelling(i) <==> WellFormedItem(i) && i == CanonicalItem(ItemRune(i))
  {
    hide IsNoncharacter, EncodeRune, ItemRune, ItemText, CanonicalItem, Hex4Value;
    if WellFormedItem(i) {
      var c := CanonicalItem(ItemRune(i));
      CanonicalShortest(i);
      CanonicalLower(ItemRune(i));
      if CanonicalSpelling(i) {
        OneShortest(i, c);
      }
      if i == c {
        forall k | WellFormedItem(k) && ItemRune(k) == ItemRune(i) ensures |ItemText(i)| <= |ItemText(k)| {
          CanonicalShortest(k);
        }
      }
    }
  }

  lemma OneShortest(i: Item, c: Item)
    requires WellFormedItem(i) && WellFormedItem(c) && ItemRune(i) == ItemRune(c)
    requires |ItemText(i)| == |ItemText(c)|
    requires (i.Hex? ==> LowerHex(i.digits)) && (c.Hex? ==> LowerHex(c.digits))
    requires !c.Pair?
    ensures i == c
  {
    hide IsNoncharacter, ItemRune, ItemText, LowerHex, EncodeRune;
    SpellingLength(i);
    SpellingLength(c);
    Spellings(i);
    Spellings(c);
    if i.Short? && c.Short? {
      ShortLetters(i, c);
    } else if i.Hex? && c.Hex? {
      HexRune(i);
      HexRune(c);
      LowerHexUnique(i.digits, c.digits);
    }
  }

  lemma HexRune(i: Item)
    requires WellFormedItem(i) && i.Hex?
    ensures ItemRune(i) == Hex4Value(i.digits)
  {
  }

  // ---------- literals ----------

  ghost function RunesOfItems(items: seq<Item>): seq<int>
    requires WellFormedItems(items)
  {
    if items == [] then [] else [ItemRune(items[0])] + RunesOfItems(items[1..])
  }

  lemma {:induction false} RunesOfDenoted(items: seq<Item>)
    requires WellFormedItems(items)
    ensures Runes(Denoted(items)) == RunesOfItems(items)
  {
    hide EncodeRune, ItemRune, DecodeRune, WellFormedItem;
    if items != [] {
      var r, tail := ItemRune(items[0]), Denoted(items[1..]);
      RunesOfDenoted(items[1..]);
      DenotedIsClean(items[1..]);
      ItemIsScalar(items[0]);
      FirstRune(r, tail);
    }
  }

  lemma {:induction false} CanonicalItemsShortest(items: seq<Item>)
    requires WellFormedItems(items)
    ensures var c := CanonicalItems(RunesOfItems(items));
      WellFormedItems(c) && |ItemsText(c)| <= |ItemsText(items)|
  {
    hide ItemText, ItemRune, CanonicalItem, WellFormedItem;
    if items != [] {
      CanonicalShortest(items[0]);
      CanonicalItemsShortest(items[1..]);
      var c := CanonicalItems(RunesOfItems(items));
      assert c == [CanonicalItem(ItemRune(items[0]))] + CanonicalItems(RunesOfItems(items[1..]));
    }
  }

  /** No literal for a string is shorter than the serializer's. */
  lemma {:induction false} EscapedShortest(items: seq<Item>)
    requires WellFormedItems(items)
    ensures |Escaped(Denoted(items))| <= |ItemsText(items)|
  {
    hide ItemsText, Escaped, Denoted, WellFormedItems, Runes, RunesOfItems, CanonicalItems, CleanString;
    DenotedIsClean(items);
    EscapedIsCanonical(Denoted(items));
    RunesOfDenoted(items);
    CanonicalItemsShortest(items);
  }

  /** A literal whose characters are all spelled canonically is the serializer's, and the serializer's is. */
  lemma {:induction false} CanonicalLiteral(items: seq<Item>)
    requires WellFormedItems(items)
    ensures (forall i | i in items :: CanonicalSpelling(i)) <==> items == CanonicalItems(RunesOfItems(items))
  {
    hide CanonicalSpelling, CanonicalItem, ItemRune, WellFormedItem;
    var c := CanonicalItems(RunesOfItems(items));
    if items != [] {
      SpellingExact(items[0]);
      CanonicalLiteral(items[1..]);
      assert c == [CanonicalItem(ItemRune(items[0]))] + CanonicalItems(RunesOfItems(items[1..]));
      assert items == [items[0]] + items[1..];
      assert forall i :: i in items <==> i == items[0] || i in items[1..];
    }
  }

  /** The serializer's text of a string is its one literal in canonical spelling. */
  lemma EscapedExactly(items: seq<Item>)
    requires WellFormedItems(items)
    ensures ItemsText(items) == Escaped(Denoted(items)) <==> forall i | i in items :: CanonicalSpelling(i)
  {
    hide ItemsText, Escaped, Denoted, WellFormedItems, Runes, RunesOfItems, CanonicalItems, CleanString;
    hide CanonicalSpelling;
    DenotedIsClean(items);
    EscapedIsCanonical(Denoted(items));
    RunesOfDenoted(items);
    CanonicalLiteral(items);
    var c := CanonicalItems(RunesOfItems(items));
    if ItemsText(items) == ItemsText(c) {
      ItemsUnique(items, [], c, []);
    }
  }
}
