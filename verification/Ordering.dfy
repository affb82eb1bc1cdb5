/** Member order by UTF-16 code units (section 3.2.3 of RFC 8785), and sorting by it. */
module Ordering {
  import opened Bytes
  import opened Unicode
  import opened Values

  // ---------- lexicographic order ----------

  predicate LexLess(a: seq<int>, b: seq<int>) {
    b != [] && (a == [] || a[0] < b[0] || (a[0] == b[0] && LexLess(a[1..], b[1..])))
  }

  function LexCompare(a: seq<int>, b: seq<int>): int {
    if LexLess(a, b) then -1 else if LexLess(b, a) then 1 else 0
  }

  lemma {:induction false} LexTotal(a: seq<int>, b: seq<int>)
    ensures a == b <==> !LexLess(a, b) && !LexLess(b, a)
    ensures !(LexLess(a, b) && LexLess(b, a))
  {
    if a != [] && b != [] {
      LexTotal(a[1..], b[1..]);
      assert a == [a[0]] + a[1..] && b == [b[0]] + b[1..];
    }
  }

  lemma {:induction false} LexTransitive(a: seq<int>, b: seq<int>, c: seq<int>)
    requires LexLess(a, b) && LexLess(b, c)
    ensures LexLess(a, c)
  {
    if a != [] && a[0] == b[0] && b[0] == c[0] {
      LexTransitive(a[1..], b[1..], c[1..]);
    }
  }

  /** The order is decided by the first difference, or by length when there is none. */
  lemma {:induction false} LexByFirstDifference(a: seq<int>, b: seq<int>, i: nat)
    requires i <= |a| && i <= |b| && a[..i] == b[..i]
    requires i < |a| && i < |b| ==> a[i] != b[i]
    ensures LexLess(a, b) <==> if i < |a| && i < |b| then a[i] < b[i] else |a| < |b| && i == |a|
  {
    if i > 0 {
      assert a[0] == a[..i][0] == b[..i][0] == b[0];
      assert a[1..][..i - 1] == a[..i][1..] && b[1..][..i - 1] == b[..i][1..];
      LexByFirstDifference(a[1..], b[1..], i - 1);
    }
  }

  predicate KeyLess(a: ByteString, b: ByteString) {
    LexLess(Key16(a), Key16(b))
  }

  /** On valid keys the order is a strict total order: distinct keys are never equal in it. */
  lemma KeyOrderStrictTotal(a: ByteString, b: ByteString, c: ByteString)
    requires ValidUtf8(a) && ValidUtf8(b)
    ensures !KeyLess(a, a) && !(KeyLess(a, b) && KeyLess(b, a))
    ensures a != b ==> KeyLess(a, b) || KeyLess(b, a)
    ensures KeyLess(a, b) && KeyLess(b, c) ==> KeyLess(a, c)
  {
    hide Key16;
    LexTotal(Key16(a), Key16(a));
    LexTotal(Key16(a), Key16(b));
    if a != b && Key16(a) == Key16(b) {
      Key16Injective(a, b);
    }
    if KeyLess(a, b) && KeyLess(b, c) {
      LexTransitive(Key16(a), Key16(b), Key16(c));
    }
  }

  // ---------- the comparison in the code ----------

  datatype OptionalUnits = Unset | Units(units: seq<int>)

  /** A member prepared for sorting; ASCII keys carry no code units. */
  datatype SortableMember = SortableMember(member: Entry<Value>, key16: OptionalUnits)

  ghost predicate Prepared(m: SortableMember) {
    if IsAscii(m.member.key) then m.key16 == Unset else m.key16 == Units(Key16(m.member.key))
  }

  method IsAsciiKey(s: ByteString) returns (ascii: bool)
    ensures ascii <==> IsAscii(s)
  {
    var i := 0;
    while i < |s|
      invariant 0 <= i <= |s|
      invariant forall k | 0 <= k < i :: s[k] < 0x80
    {
      if s[i] >= 0x80 {
        return false;
      }
      i := i + 1;
    }
    return true;
  }

  method CompareUtf16Units(ua: seq<int>, ub: seq<int>) returns (c: int)
    ensures c == LexCompare(ua, ub)
  {
    var minLen := |ua|;
    if |ub| < minLen {
      minLen := |ub|;
    }
    var i := 0;
    while i < minLen
      invariant 0 <= i <= minLen
      invariant ua[..i] == ub[..i]
    {
      if ua[i] != ub[i] {
        LexByFirstDifference(ua, ub, i);
        LexByFirstDifference(ub, ua, i);
      }
      if ua[i] < ub[i] {
        return -1;
      }
      if ua[i] > ub[i] {
        return 1;
      }
      i := i + 1;
    }
    LexByFirstDifference(ua, ub, minLen);
    LexByFirstDifference(ub, ua, minLen);
    if |ua| < |ub| {
      return -1;
    }
    if |ua| > |ub| {
      return 1;
    }
    return 0;
  }

  /** The ASCII shortcut and the mixed case compare the UTF-16 code units of the two keys. */
  method CompareSortKeys(a: SortableMember, b: SortableMember) returns (c: int)
    requires Prepared(a) && Prepared(b)
    ensures c == LexCompare(Key16(a.member.key), Key16(b.member.key))
  {
    hide Key16;
    if IsAscii(a.member.key) {
      AsciiKey16(a.member.key);
    }
    if IsAscii(b.member.key) {
      AsciiKey16(b.member.key);
    }
    if a.key16.Unset? && b.key16.Unset? {
      if LexLess(a.member.key, b.member.key) {
        return -1;
      }
      if LexLess(b.member.key, a.member.key) {
        return 1;
      }
      return 0;
    }
    var ak := if a.key16.Unset? then Key16(a.member.key) else a.key16.units;
    var bk := if b.key16.Unset? then Key16(b.member.key) else b.key16.units;
    c := CompareUtf16Units(ak, bk);
  }

  // ---------- sorting ----------

  ghost predicate StrictlySorted<T>(es: seq<Entry<T>>) {
    forall i, j | 0 <= i < j < |es| :: KeyLess(es[i].key, es[j].key)
  }

  /** Keys that can be ordered: valid and pairwise distinct. */
  ghost predicate Sortable<T>(es: seq<Entry<T>>) {
    Distinct(Keys(es)) && forall i | 0 <= i < |es| :: ValidUtf8(es[i].key)
  }

  ghost predicate SameElements<T(!new)>(a: seq<Entry<T>>, b: seq<Entry<T>>) {
    forall e :: e in a <==> e in b
  }

  function Insert<T>(e: Entry<T>, es: seq<Entry<T>>): seq<Entry<T>> {
    if es == [] || KeyLess(e.key, es[0].key) then [e] + es else [es[0]] + Insert(e, es[1..])
  }

  function Sort<T>(es: seq<Entry<T>>): seq<Entry<T>> {
    if es == [] then [] else Insert(es[0], Sort(es[1..]))
  }

  lemma {:induction false} InsertElements<T(!new)>(e: Entry<T>, es: seq<Entry<T>>)
    ensures |Insert(e, es)| == |es| + 1
    ensures forall x :: x in Insert(e, es) <==> x == e || x in es
  {
    if es != [] && !KeyLess(e.key, es[0].key) {
      InsertElements(e, es[1..]);
      assert forall x :: x in es <==> x == es[0] || x in es[1..];
    }
  }

  lemma {:induction false} SortElements<T(!new)>(es: seq<Entry<T>>)
    ensures |Sort(es)| == |es| && SameElements(Sort(es), es)
  {
    if es != [] {
      SortElements(es[1..]);
      InsertElements(es[0], Sort(es[1..]));
      assert forall x :: x in es <==> x == es[0] || x in es[1..];
    }
  }

  lemma {:induction false} InsertSorted<T(!new)>(e: Entry<T>, es: seq<Entry<T>>)
    requires StrictlySorted(es) && ValidUtf8(e.key)
    requires forall i | 0 <= i < |es| :: ValidUtf8(es[i].key) && es[i].key != e.key
    ensures StrictlySorted(Insert(e, es))
  {
    hide KeyLess, ValidUtf8;
    var out := Insert(e, es);
    if es == [] {
    } else if KeyLess(e.key, es[0].key) {
      forall j | 0 < j < |out| ensures KeyLess(e.key, out[j].key) {
        if j > 1 {
          KeyOrderStrictTotal(e.key, es[0].key, es[j - 1].key);
        }
      }
    } else {
      KeyOrderStrictTotal(e.key, es[0].key, e.key);
      InsertSorted(e, es[1..]);
      InsertElements(e, es[1..]);
      forall j | 0 < j < |out| ensures KeyLess(es[0].key, out[j].key) {
        assert out[j] == Insert(e, es[1..])[j - 1];
        assert out[j] in Insert(e, es[1..]);
      }
      assert out[1..] == Insert(e, es[1..]);
      assert StrictlySorted(out[1..]);
      ConsSorted(out);
    }
  }

  lemma ConsSorted<T>(es: seq<Entry<T>>)
    requires es != [] && StrictlySorted(es[1..])
    requires forall j | 0 < j < |es| :: KeyLess(es[0].key, es[j].key)
    ensures StrictlySorted(es)
  {
    forall i, j | 0 <= i < j < |es| ensures KeyLess(es[i].key, es[j].key) {
      if i > 0 {
        assert es[i] == es[1..][i - 1] && es[j] == es[1..][j - 1];
      }
    }
  }

  lemma SortableTail<T>(es: seq<Entry<T>>)
    requires es != [] && Sortable(es)
    ensures Sortable(es[1..])
    ensures forall e | e in es[1..] :: e.key != es[0].key && ValidUtf8(e.key)
  {
    hide ValidUtf8;
    forall i, j | 0 <= i < j < |es[1..]| ensures Keys(es[1..])[i] != Keys(es[1..])[j] {
      assert Keys(es)[i + 1] != Keys(es)[j + 1];
    }
    forall i | 0 <= i < |es[1..]| ensures es[1..][i].key != es[0].key {
      assert Keys(es)[0] != Keys(es)[i + 1];
    }
  }

  lemma {:induction false} SortSorted<T(!new)>(es: seq<Entry<T>>)
    requires Sortable(es)
    ensures StrictlySorted(Sort(es))
  {
    hide KeyLess, ValidUtf8;
    if es != [] {
      SortableTail(es);
      SortSorted(es[1..]);
      SortElements(es[1..]);
      var rest := Sort(es[1..]);
      forall i | 0 <= i < |rest| ensures ValidUtf8(rest[i].key) && rest[i].key != es[0].key {
        assert rest[i] in es[1..];
      }
      assert es[0].key == es[0].key && ValidUtf8(es[0].key);
      InsertSorted(es[0], rest);
    }
  }

  /** Two strictly sorted sequences with the same elements are equal: any correct sort gives one result. */
  lemma {:induction false} SortedUnique<T(!new)>(a: seq<Entry<T>>, b: seq<Entry<T>>)
    requires StrictlySorted(a) && StrictlySorted(b) && SameElements(a, b)
    requires forall e | e in a :: ValidUtf8(e.key)
    ensures a == b
  {
    hide KeyLess, ValidUtf8;
    if a == [] {
      NoElements(b);
    } else {
      assert a[0] in b;
      assert b[0] in a;
      LeastFirst(a, b[0]);
      LeastFirst(b, a[0]);
      KeyOrderStrictTotal(a[0].key, b[0].key, a[0].key);
      assert a[0] == b[0];
      TailElements(a, b);
      SortedTail(a);
      SortedTail(b);
      SortedUnique(a[1..], b[1..]);
      assert a == [a[0]] + a[1..] && b == [b[0]] + b[1..];
    }
  }

  lemma NoElements<T(!new)>(b: seq<Entry<T>>)
    requires SameElements([], b)
    ensures b == []
  {
    if b != [] {
      HasElement(b);
      assert false;
    }
  }

  lemma HasElement<T(!new)>(b: seq<Entry<T>>)
    requires b != []
    ensures exists e :: e in b
  {
    assert b[0] in b;
  }

  lemma LeastFirst<T>(a: seq<Entry<T>>, e: Entry<T>)
    requires StrictlySorted(a) && e in a
    ensures e == a[0] || KeyLess(a[0].key, e.key)
  {
  }

  lemma SortedTail<T>(a: seq<Entry<T>>)
    requires StrictlySorted(a) && a != []
    ensures StrictlySorted(a[1..])
  {
  }

  lemma {:induction false} SortOfSorted<T>(es: seq<Entry<T>>)
    requires StrictlySorted(es)
    ensures Sort(es) == es
  {
    hide KeyLess;
    if es != [] {
      SortedTail(es);
      SortOfSorted(es[1..]);
      if |es| > 1 {
        assert KeyLess(es[0].key, es[1].key);
      }
    }
  }

  lemma TailElements<T(!new)>(a: seq<Entry<T>>, b: seq<Entry<T>>)
    requires a != [] && b != [] && a[0] == b[0] && SameElements(a, b)
    requires StrictlySorted(a) && StrictlySorted(b) && ValidUtf8(a[0].key)
    ensures SameElements(a[1..], b[1..])
  {
    hide KeyLess, ValidUtf8;
    KeyOrderStrictTotal(a[0].key, a[0].key, a[0].key);
    forall e ensures e in a[1..] <==> e in b[1..] {
      assert e in a <==> e == a[0] || e in a[1..];
      assert e in b <==> e == b[0] || e in b[1..];
      HeadNotInTail(a);
      HeadNotInTail(b);
    }
  }

  lemma HeadNotInTail<T>(a: seq<Entry<T>>)
    requires a != [] && StrictlySorted(a) && !KeyLess(a[0].key, a[0].key)
    ensures a[0] !in a[1..]
  {
  }

  // ---------- mapping the values of entries ----------

  ghost function MapEntries<A, B>(f: A -> B, es: seq<Entry<A>>): (out: seq<Entry<B>>)
    ensures |out| == |es| && forall i | 0 <= i < |es| :: out[i] == Entry(es[i].key, f(es[i].value))
  {
    if es == [] then [] else [Entry(es[0].key, f(es[0].value))] + MapEntries(f, es[1..])
  }

  lemma {:induction false} InsertMap<A, B>(f: A -> B, e: Entry<A>, es: seq<Entry<A>>)
    ensures Insert(Entry(e.key, f(e.value)), MapEntries(f, es)) == MapEntries(f, Insert(e, es))
  {
    hide KeyLess;
    if es != [] && !KeyLess(e.key, es[0].key) {
      InsertMap(f, e, es[1..]);
      assert MapEntries(f, es)[1..] == MapEntries(f, es[1..]);
    }
  }

  /** Sorting only looks at the keys. */
  lemma {:induction false} SortMap<A, B>(f: A -> B, es: seq<Entry<A>>)
    ensures Sort(MapEntries(f, es)) == MapEntries(f, Sort(es))
  {
    if es != [] {
      SortMap(f, es[1..]);
      InsertMap(f, es[0], Sort(es[1..]));
      assert MapEntries(f, es)[1..] == MapEntries(f, es[1..]);
    }
  }

  lemma MapSortable<A, B>(f: A -> B, es: seq<Entry<A>>)
    requires Sortable(es)
    ensures Sortable(MapEntries(f, es))
  {
    assert Keys(MapEntries(f, es)) == Keys(es);
  }
}
