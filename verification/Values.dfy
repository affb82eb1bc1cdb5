/** Value trees, their measures, and the configurable bounds. */
module Values {
  import opened Bytes
  import opened Doubles
  import opened Strings

  datatype Entry<+T> = Entry(key: ByteString, value: T)

  /** A parsed value. A boolean carries its literal; `VUnknown` is a value of no known kind. */
  datatype Value =
    | VNull
    | VBool(text: ByteString)
    | VNumber(num: Float)
    | VString(str: ByteString)
    | VArray(elems: seq<Value>)
    | VObject(members: seq<Entry<Value>>)
    | VUnknown(kind: int)

  // ---------- bounds ----------

  datatype Options = Options(
    maxDepth: int, maxInputSize: int, maxValues: int, maxObjectMembers: int,
    maxArrayElements: int, maxStringBytes: int, maxNumberChars: int)

  datatype MaybeOptions = NoOptions | SomeOptions(options: Options)

  /** The bounds in force. */
  datatype Limits = Limits(
    maxDepth: nat, maxInputSize: nat, maxValues: nat, maxObjectMembers: nat,
    maxArrayElements: nat, maxStringBytes: nat, maxNumberChars: nat)

  const DEFAULT_LIMITS := Limits(1000, 64 * 1024 * 1024, 1_000_000, 250_000, 250_000, 8 * 1024 * 1024, 4096)

  function ResolveOption(value: int, default: nat): nat {
    if value > 0 then value else default
  }

  function Resolve(o: MaybeOptions): Limits {
    match o
    case NoOptions => DEFAULT_LIMITS
    case SomeOptions(o) =>
      var d := DEFAULT_LIMITS;
      Limits(
        ResolveOption(o.maxDepth, d.maxDepth),
        ResolveOption(o.maxInputSize, d.maxInputSize),
        ResolveOption(o.maxValues, d.maxValues),
        ResolveOption(o.maxObjectMembers, d.maxObjectMembers),
        ResolveOption(o.maxArrayElements, d.maxArrayElements),
        ResolveOption(o.maxStringBytes, d.maxStringBytes),
        ResolveOption(o.maxNumberChars, d.maxNumberChars))
  }

  /** Each option sets its own bound and no other; without a positive value the default is in force. */
  lemma OptionsAreIndependent(o: Options, x: int)
    ensures var r, d := Resolve(SomeOptions(o)), DEFAULT_LIMITS;
      && Resolve(SomeOptions(o.(maxDepth := x))) == r.(maxDepth := ResolveOption(x, d.maxDepth))
      && Resolve(SomeOptions(o.(maxInputSize := x))) == r.(maxInputSize := ResolveOption(x, d.maxInputSize))
      && Resolve(SomeOptions(o.(maxValues := x))) == r.(maxValues := ResolveOption(x, d.maxValues))
      && Resolve(SomeOptions(o.(maxObjectMembers := x)))
           == r.(maxObjectMembers := ResolveOption(x, d.maxObjectMembers))
      && Resolve(SomeOptions(o.(maxArrayElements := x)))
           == r.(maxArrayElements := ResolveOption(x, d.maxArrayElements))
      && Resolve(SomeOptions(o.(maxStringBytes := x))) == r.(maxStringBytes := ResolveOption(x, d.maxStringBytes))
      && Resolve(SomeOptions(o.(maxNumberChars := x))) == r.(maxNumberChars := ResolveOption(x, d.maxNumberChars))
    ensures Resolve(SomeOptions(Options(0, 0, 0, 0, 0, 0, 0))) == Resolve(NoOptions)
  {
  }

  // ---------- measures ----------

  function Max(a: nat, b: nat): nat {
    if a < b then b else a
  }

  /** Number of values in a tree. */
  function Nodes(v: Value): (n: nat)
    ensures n >= 1
  {
    match v
    case VArray(elems) => 1 + NodesAll(elems)
    case VObject(members) => 1 + NodesMembers(members)
    case _ => 1
  }

  function NodesAll(es: seq<Value>): nat {
    if es == [] then 0 else Nodes(es[0]) + NodesAll(es[1..])
  }

  function NodesMembers(ms: seq<Entry<Value>>): nat {
    if ms == [] then 0 else Nodes(ms[0].value) + NodesMembers(ms[1..])
  }

  /** Nesting depth of containers: how the parser counts depth. */
  function Nesting(v: Value): nat {
    match v
    case VArray(elems) => 1 + NestingAll(elems)
    case VObject(members) => 1 + NestingMembers(members)
    case _ => 0
  }

  function NestingAll(es: seq<Value>): nat {
    if es == [] then 0 else Max(Nesting(es[0]), NestingAll(es[1..]))
  }

  function NestingMembers(ms: seq<Entry<Value>>): nat {
    if ms == [] then 0 else Max(Nesting(ms[0].value), NestingMembers(ms[1..]))
  }

  /** Depth of the deepest value below the root: how the serializer counts depth. */
  function Height(v: Value): nat {
    match v
    case VArray(elems) => HeightAll(elems)
    case VObject(members) => HeightMembers(members)
    case _ => 0
  }

  /** One more than the greatest height; 0 when there is no value. */
  function HeightAll(es: seq<Value>): nat {
    if es == [] then 0 else Max(1 + Height(es[0]), HeightAll(es[1..]))
  }

  function HeightMembers(ms: seq<Entry<Value>>): nat {
    if ms == [] then 0 else Max(1 + Height(ms[0].value), HeightMembers(ms[1..]))
  }

  /** Every container and string is within its own bound. */
  ghost predicate Fits(v: Value, l: Limits) {
    match v
    case VString(s) => |s| <= l.maxStringBytes
    case VArray(elems) => |elems| <= l.maxArrayElements && FitsAll(elems, l)
    case VObject(members) => |members| <= l.maxObjectMembers && FitsMembers(members, l)
    case _ => true
  }

  ghost predicate FitsAll(es: seq<Value>, l: Limits) {
    es == [] || (Fits(es[0], l) && FitsAll(es[1..], l))
  }

  ghost predicate FitsMembers(ms: seq<Entry<Value>>, l: Limits) {
    ms == [] || (|ms[0].key| <= l.maxStringBytes && Fits(ms[0].value, l) && FitsMembers(ms[1..], l))
  }

  // ---------- validity ----------

  function Keys<T>(ms: seq<Entry<T>>): seq<ByteString> {
    seq(|ms|, i requires 0 <= i < |ms| => ms[i].key)
  }

  ghost predicate Distinct(keys: seq<ByteString>) {
    forall i, j | 0 <= i < j < |keys| :: keys[i] != keys[j]
  }

  /** A tree that denotes a JSON value: finite numbers, clean strings, distinct names. */
  ghost predicate ValidValue(v: Value) {
    match v
    case VNull => true
    case VBool(text) => text == TRUE_TEXT || text == FALSE_TEXT
    case VNumber(num) => num.Finite?
    case VString(s) => CleanString(s)
    case VArray(elems) => ValidAll(elems)
    case VObject(members) => Distinct(Keys(members)) && ValidMembers(members)
    case VUnknown(_) => false
  }

  ghost predicate ValidAll(es: seq<Value>) {
    es == [] || (ValidValue(es[0]) && ValidAll(es[1..]))
  }

  ghost predicate ValidMembers(ms: seq<Entry<Value>>) {
    ms == [] || (CleanString(ms[0].key) && ValidValue(ms[0].value) && ValidMembers(ms[1..]))
  }

  /** The parser counts at most one level more than the serializer, where the deepest container is empty. */
  lemma {:induction false} HeightWithinNesting(v: Value)
    ensures Height(v) <= Nesting(v) <= Height(v) + 1
  {
    match v
    case VArray(elems) => HeightAllWithin(elems);
    case VObject(members) => HeightMembersWithin(members);
    case _ =>
  }

  lemma {:induction false} HeightAllWithin(es: seq<Value>)
    ensures NestingAll(es) <= HeightAll(es) <= 1 + NestingAll(es)
  {
    if es != [] {
      HeightWithinNesting(es[0]);
      HeightAllWithin(es[1..]);
    }
  }

  lemma {:induction false} HeightMembersWithin(ms: seq<Entry<Value>>)
    ensures NestingMembers(ms) <= HeightMembers(ms) <= 1 + NestingMembers(ms)
  {
    if ms != [] {
      HeightWithinNesting(ms[0].value);
      HeightMembersWithin(ms[1..]);
    }
  }

  /** Every level of containers holds a value. */
  lemma {:induction false} NestingWithinNodes(v: Value)
    ensures Nesting(v) <= Nodes(v)
  {
    match v
    case VArray(elems) => NestingAllWithinNodes(elems);
    case VObject(members) => NestingMembersWithinNodes(members);
    case _ =>
  }

  lemma {:induction false} NestingAllWithinNodes(es: seq<Value>)
    ensures NestingAll(es) <= NodesAll(es)
  {
    if es != [] {
      NestingWithinNodes(es[0]);
      NestingAllWithinNodes(es[1..]);
    }
  }

  lemma {:induction false} NestingMembersWithinNodes(ms: seq<Entry<Value>>)
    ensures NestingMembers(ms) <= NodesMembers(ms)
  {
    if ms != [] {
      NestingWithinNodes(ms[0].value);
      NestingMembersWithinNodes(ms[1..]);
    }
  }

  // ---------- bounds that are wide enough ----------

  /** All bounds equal. */
  function Uniform(n: nat): Limits {
    Limits(n, n, n, n, n, n, n)
  }

  lemma {:induction false} FitsMonotone(v: Value, m: nat, n: nat)
    requires m <= n && Fits(v, Uniform(m))
    ensures Fits(v, Uniform(n))
  {
    match v
    case VArray(elems) => FitsAllMonotone(elems, m, n);
    case VObject(members) => FitsMembersMonotone(members, m, n);
    case _ =>
  }

  lemma {:induction false} FitsAllMonotone(es: seq<Value>, m: nat, n: nat)
    requires m <= n && FitsAll(es, Uniform(m))
    ensures FitsAll(es, Uniform(n))
  {
    if es != [] {
      FitsMonotone(es[0], m, n);
      FitsAllMonotone(es[1..], m, n);
    }
  }

  lemma {:induction false} FitsMembersMonotone(ms: seq<Entry<Value>>, m: nat, n: nat)
    requires m <= n && FitsMembers(ms, Uniform(m))
    ensures FitsMembers(ms, Uniform(n))
  {
    if ms != [] {
      FitsMonotone(ms[0].value, m, n);
      FitsMembersMonotone(ms[1..], m, n);
    }
  }

  /** Every tree is within some bounds. */
  lemma {:induction false} FitsSome(v: Value) returns (n: nat)
    ensures Fits(v, Uniform(n))
  {
    match v
    case VString(s) => n := |s|;
    case VArray(elems) =>
      var m := FitsSomeAll(elems);
      n := Max(m, |elems|);
      FitsAllMonotone(elems, m, n);
    case VObject(members) =>
      var m := FitsSomeMembers(members);
      n := Max(m, |members|);
      FitsMembersMonotone(members, m, n);
    case _ => n := 0;
  }

  lemma {:induction false} FitsSomeAll(es: seq<Value>) returns (n: nat)
    ensures FitsAll(es, Uniform(n))
  {
    if es == [] {
      n := 0;
    } else {
      var a := FitsSome(es[0]);
      var b := FitsSomeAll(es[1..]);
      n := Max(a, b);
      FitsMonotone(es[0], a, n);
      FitsAllMonotone(es[1..], b, n);
    }
  }

  lemma {:induction false} FitsSomeMembers(ms: seq<Entry<Value>>) returns (n: nat)
    ensures FitsMembers(ms, Uniform(n))
  {
    if ms == [] {
      n := 0;
    } else {
      var a := FitsSome(ms[0].value);
      var b := FitsSomeMembers(ms[1..]);
      n := Max(Max(a, b), |ms[0].key|);
      FitsMonotone(ms[0].value, a, n);
      FitsMembersMonotone(ms[1..], b, n);
    }
  }
}
