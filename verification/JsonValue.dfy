/** Json::Value: the tagged value tree and the ordered child map behind arrays and objects.

    A `char` stands for one byte, so `string` is a byte string.  `ObjectValues` is a
    `std::map<CZString, Value>`; the model keeps it as the list of its entries in key order,
    which is the order in which the map is iterated. */
module JsonValue {

  datatype Option<+T> = None | Some(value: T)

  const MAX_INT: int := 0x7FFF_FFFF
  const TWO_TO_THE_32: int := 0x1_0000_0000
  const MIN_INT64: int := -0x8000_0000_0000_0000
  const MAX_INT64: int := 0x7FFF_FFFF_FFFF_FFFF
  const MAX_UINT64: int := 0xFFFF_FFFF_FFFF_FFFF
  // Longest string duplicateAndPrefixStringValue accepts: maxInt - sizeof(unsigned) - 1.
  const MAX_STRING: int := 0x7FFF_FFFA
  // CZString keeps a member name's length in 30 bits.
  const NAME_LIMIT: int := 0x4000_0000

  /** CZString: an array index or a member name. */
  datatype Key = Index(index: nat) | Name(name: string)

  /** `Real` carries the 64 bits of a double; no property below looks inside them.
      `NullString` is a string value whose character pointer is null. */
  datatype Value =
    | Null
    | Int(i: int)
    | UInt(u: int)
    | Real(bits: nat)
    | NullString
    | String(text: string)
    | Bool(b: bool)
    | Array(entries: Entries)
    | Object(entries: Entries)

  datatype Entries = Nil | Entry(key: Key, value: Value, rest: Entries)

  // ----- byte-string and key order -------------------------------------------------------

  /** memcmp of the first `n` bytes. */
  function Memcmp(a: string, b: string, n: nat): (r: int)
    requires n <= |a| && n <= |b|
  {
    if n == 0 then 0
    else if a[0] < b[0] then -1
    else if a[0] > b[0] then 1
    else Memcmp(a[1..], b[1..], n - 1)
  }

  predicate BytesLess(a: string, b: string) {
    var n := if |a| <= |b| then |a| else |b|;
    var comp := Memcmp(a, b, n);
    comp < 0 || (comp == 0 && |a| < |b|)
  }

  /** CZString::operator<.  The source never compares an index with a name; the model puts
      every index before every name so that the order is defined on all keys. */
  predicate KeyLess(a: Key, b: Key) {
    match (a, b)
    case (Index(i), Index(j)) => i < j
    case (Name(s), Name(t)) => BytesLess(s, t)
    case (Index(_), Name(_)) => true
    case (Name(_), Index(_)) => false
  }

  /** The dictionary order on byte strings, by structural recursion. */
  predicate DictionaryLess(a: string, b: string) {
    b != [] && (a == [] || a[0] < b[0] || (a[0] == b[0] && DictionaryLess(a[1..], b[1..])))
  }

  lemma {:induction false} BytesLessIsDictionaryLess(a: string, b: string)
    ensures BytesLess(a, b) == DictionaryLess(a, b)
  {
    if a == [] || b == [] {
    } else {
      BytesLessIsDictionaryLess(a[1..], b[1..]);
    }
  }

  /** The strings agree in front of position k, and there the first one ends or has the smaller byte. */
  predicate DecidedAt(a: string, b: string, k: nat) {
    k <= |a| && k < |b| && a[..k] == b[..k] && (k == |a| || a[k] < b[k])
  }

  /** Dictionary order in one sentence. */
  lemma {:induction false} DictionaryMeaning(a: string, b: string)
    ensures DictionaryLess(a, b) <==> exists k: nat :: DecidedAt(a, b, k)
  {
    if a != [] && b != [] && a[0] == b[0] {
      DictionaryMeaning(a[1..], b[1..]);
      DecidedBehind(a, b);
    } else {
      if DictionaryLess(a, b) { assert DecidedAt(a, b, 0); }
      forall k: nat | DecidedAt(a, b, k) ensures k == 0 { DecidedFirst(a, b, k); }
    }
  }

  lemma DecidedFirst(a: string, b: string, k: nat)
    requires DecidedAt(a, b, k)
    ensures k > 0 ==> a != [] && b != [] && a[0] == b[0]
  {
    if k > 0 { assert a[..k][0] == a[0] && b[..k][0] == b[0]; }
  }

  lemma DecidedBehind(a: string, b: string)
    requires a != [] && b != [] && a[0] == b[0]
    ensures (exists k: nat :: DecidedAt(a, b, k)) <==> exists k: nat :: DecidedAt(a[1..], b[1..], k)
  {
    forall k: nat | DecidedAt(a[1..], b[1..], k) ensures DecidedAt(a, b, k + 1) { DecidedNext(a, b, k); }
    forall k: nat | DecidedAt(a, b, k) ensures k > 0 && DecidedAt(a[1..], b[1..], k - 1) {
      assert k > 0;
      DecidedNext(a, b, k - 1);
    }
  }

  lemma DecidedNext(a: string, b: string, k: nat)
    requires a != [] && b != [] && a[0] == b[0]
    ensures DecidedAt(a, b, k + 1) <==> DecidedAt(a[1..], b[1..], k)
  {
    var x, y := a[1..], b[1..];
    if k <= |x| && k < |y| {
      assert a[..k + 1] == [a[0]] + x[..k] && b[..k + 1] == [b[0]] + y[..k];
      assert a[..k + 1][1..] == x[..k] && b[..k + 1][1..] == y[..k];
      assert k < |x| ==> x[k] == a[k + 1];
    }
  }

  /** Keys are ordered by number or by dictionary. */
  lemma KeyOrder(i: nat, j: nat, a: string, b: string)
    ensures KeyLess(Index(i), Index(j)) <==> i < j
    ensures KeyLess(Name(a), Name(b)) <==> DictionaryLess(a, b)
  {
    BytesLessIsDictionaryLess(a, b);
  }

  lemma {:induction false} DictionaryTrichotomy(a: string, b: string)
    ensures !(DictionaryLess(a, b) && DictionaryLess(b, a))
    ensures DictionaryLess(a, b) || DictionaryLess(b, a) || a == b
    ensures !DictionaryLess(a, a)
  {
    if a == [] || b == [] {
      if a != [] { DictionaryTrichotomy(a[1..], []); }
    } else {
      DictionaryTrichotomy(a[1..], b[1..]);
      assert a[1..] == b[1..] && a[0] == b[0] ==> a == [a[0]] + a[1..] == b;
    }
  }

  lemma {:induction false} DictionaryTransitive(a: string, b: string, c: string)
    requires DictionaryLess(a, b) && DictionaryLess(b, c)
    ensures DictionaryLess(a, c)
  {
    if a != [] && a[0] == b[0] == c[0] {
      DictionaryTransitive(a[1..], b[1..], c[1..]);
    }
  }

  lemma KeyTrichotomy(a: Key, b: Key)
    ensures !(KeyLess(a, b) && KeyLess(b, a))
    ensures KeyLess(a, b) || KeyLess(b, a) || a == b
    ensures !KeyLess(a, a)
  {
    if a.Name? && b.Name? {
      BytesLessIsDictionaryLess(a.name, b.name);
      BytesLessIsDictionaryLess(b.name, a.name);
      BytesLessIsDictionaryLess(a.name, a.name);
      DictionaryTrichotomy(a.name, b.name);
    } else if a.Name? {
      BytesLessIsDictionaryLess(a.name, a.name);
      DictionaryTrichotomy(a.name, a.name);
    }
  }

  lemma KeyTransitive(a: Key, b: Key, c: Key)
    requires KeyLess(a, b) && KeyLess(b, c)
    ensures KeyLess(a, c)
  {
    if a.Name? && b.Name? && c.Name? {
      BytesLessIsDictionaryLess(a.name, b.name);
      BytesLessIsDictionaryLess(b.name, c.name);
      BytesLessIsDictionaryLess(a.name, c.name);
      DictionaryTransitive(a.name, b.name, c.name);
    }
  }

  // ----- the ordered map -----------------------------------------------------------------

  function Count(e: Entries): nat {
    match e case Nil => 0 case Entry(_, _, rest) => 1 + Count(rest)
  }

  /** Every key of `e` lies above `k`. */
  predicate AllAbove(k: Key, e: Entries) {
    e.Entry? ==> KeyLess(k, e.key) && AllAbove(k, e.rest)
  }

  predicate AllBelow(e: Entries, k: Key) {
    e.Entry? ==> KeyLess(e.key, k) && AllBelow(e.rest, k)
  }

  predicate Sorted(e: Entries) {
    e.Entry? ==> AllAbove(e.key, e.rest) && Sorted(e.rest)
  }

  /** map::find. */
  function Find(e: Entries, k: Key): (r: Option<Value>)
    ensures r.Some? ==> Weight(r.value) < EntriesWeight(e)
  {
    match e
    case Nil => None
    case Entry(key, value, rest) => if key == k then Some(value) else Find(rest, k)
  }

  /** The map with `k` bound to `v`: lower_bound, then overwrite or insert in front of it. */
  function Put(e: Entries, k: Key, v: Value): Entries {
    match e
    case Nil => Entry(k, v, Nil)
    case Entry(key, value, rest) =>
      if KeyLess(key, k) then Entry(key, value, Put(rest, k, v))
      else if key == k then Entry(k, v, rest)
      else Entry(k, v, e)
  }

  function Erase(e: Entries, k: Key): Entries {
    match e
    case Nil => Nil
    case Entry(key, value, rest) => if key == k then rest else Entry(key, value, Erase(rest, k))
  }

  function Append(a: Entries, b: Entries): Entries {
    match a case Nil => b case Entry(k, v, rest) => Entry(k, v, Append(rest, b))
  }

  /** Number of nodes: the measure of the recursions over trees. */
  function Weight(v: Value): nat {
    match v
    case Array(e) => 1 + EntriesWeight(e)
    case Object(e) => 1 + EntriesWeight(e)
    case _ => 1
  }

  function EntriesWeight(e: Entries): nat {
    match e case Nil => 1 case Entry(_, v, rest) => Weight(v) + EntriesWeight(rest) + 1
  }

  lemma {:induction false} AllAboveBelow(j: Key, k: Key, e: Entries)
    requires KeyLess(j, k) && AllAbove(k, e)
    ensures AllAbove(j, e)
  {
    if e.Entry? {
      KeyTransitive(j, k, e.key);
      AllAboveBelow(j, k, e.rest);
    }
  }

  lemma {:induction false} AllAboveMisses(k: Key, e: Entries)
    requires AllAbove(k, e)
    ensures Find(e, k) == None
  {
    if e.Entry? {
      KeyTrichotomy(k, e.key);
      AllAboveMisses(k, e.rest);
    }
  }

  lemma {:induction false} AllAbovePut(j: Key, e: Entries, k: Key, v: Value)
    requires AllAbove(j, e) && KeyLess(j, k)
    ensures AllAbove(j, Put(e, k, v))
  {
    if e.Entry? { AllAbovePut(j, e.rest, k, v); }
  }

  /** Put binds exactly the key it names and keeps the entries in order. */
  lemma {:induction false} PutMeaning(e: Entries, k: Key, v: Value, q: Key)
    requires Sorted(e)
    ensures Sorted(Put(e, k, v))
    ensures Find(Put(e, k, v), q) == if q == k then Some(v) else Find(e, q)
  {
    match e
    case Nil =>
    case Entry(key, value, rest) =>
      PutMeaning(rest, k, v, q);
      KeyTrichotomy(key, k);
      if KeyLess(key, k) {
        AllAbovePut(key, rest, k, v);
      } else if key != k {
        AllAboveBelow(k, key, rest);
      }
  }

  lemma {:induction false} AllAboveErase(j: Key, e: Entries, k: Key)
    requires AllAbove(j, e)
    ensures AllAbove(j, Erase(e, k))
  {
    if e.Entry? { AllAboveErase(j, e.rest, k); }
  }

  lemma {:induction false} EraseMeaning(e: Entries, k: Key, q: Key)
    requires Sorted(e)
    ensures Sorted(Erase(e, k))
    ensures Find(Erase(e, k), q) == if q == k then None else Find(e, q)
  {
    if e.Entry? {
      EraseMeaning(e.rest, k, q);
      AllAboveErase(e.key, e.rest, k);
      if e.key == k { AllAboveMisses(k, e.rest); }
    }
  }

  /** A new greatest key goes to the end of the map. */
  lemma {:induction false} PutAtEnd(e: Entries, k: Key, v: Value)
    requires AllBelow(e, k)
    ensures Put(e, k, v) == Append(e, Entry(k, v, Nil))
  {
    if e.Entry? { PutAtEnd(e.rest, k, v); }
  }

  /** Storing into the entry just added at the end replaces it. */
  lemma {:induction false} PutOverLast(e: Entries, k: Key, w: Value, v: Value)
    requires AllBelow(e, k)
    ensures Put(Append(e, Entry(k, w, Nil)), k, v) == Append(e, Entry(k, v, Nil))
    ensures Find(Append(e, Entry(k, w, Nil)), k) == Some(w)
  {
    if e.Entry? {
      KeyTrichotomy(e.key, k);
      PutOverLast(e.rest, k, w, v);
    } else {
      KeyTrichotomy(k, k);
    }
  }

  lemma {:induction false} AllBelowMisses(e: Entries, k: Key)
    requires AllBelow(e, k)
    ensures Find(e, k) == None
  {
    if e.Entry? {
      KeyTrichotomy(e.key, k);
      AllBelowMisses(e.rest, k);
    }
  }

  lemma {:induction false} AppendAssociative(a: Entries, b: Entries, c: Entries)
    ensures Append(Append(a, b), c) == Append(a, Append(b, c))
  {
    if a.Entry? { AppendAssociative(a.rest, b, c); }
  }

  lemma {:induction false} AppendNil(a: Entries)
    ensures Append(a, Nil) == a
  {
    if a.Entry? { AppendNil(a.rest); }
  }

  lemma {:induction false} AllBelowExtended(e: Entries, j: Key, v: Value, k: Key)
    requires AllBelow(e, j) && KeyLess(j, k)
    ensures AllBelow(Append(e, Entry(j, v, Nil)), k)
  {
    if e.Entry? {
      KeyTransitive(e.key, j, k);
      AllBelowExtended(e.rest, j, v, k);
    }
  }

  // ----- arrays as sparse index maps -----------------------------------------------------

  /** One more than the highest index. */
  function Span(e: Entries): nat {
    match e
    case Nil => 0
    case Entry(k, _, Nil) => if k.Index? then k.index + 1 else 0
    case Entry(_, _, rest) => Span(rest)
  }

  /** Value::size of an array: the highest index plus one, in 32-bit arithmetic. */
  function ArraySize(e: Entries): nat {
    Span(e) % TWO_TO_THE_32
  }

  /** `value[index]` on a const array: the stored element, or null where there is none. */
  function At(e: Entries, i: nat): (v: Value)
    ensures v == Null || Weight(v) < EntriesWeight(e)
  {
    var r := Find(e, Index(i));
    if r.Some? then r.value else Null
  }

  // ----- well-formed trees -----------------------------------------------------------------

  predicate IndexKeys(e: Entries) {
    e.Entry? ==> e.key.Index? && e.key.index < TWO_TO_THE_32 && IndexKeys(e.rest)
  }

  predicate NameKeys(e: Entries) {
    e.Entry? ==> e.key.Name? && |e.key.name| < NAME_LIMIT && NameKeys(e.rest)
  }

  /** What every Value keeps: payloads in their C++ types' ranges, children in key order. */
  predicate WellFormed(v: Value) {
    match v
    case Int(i) => MIN_INT64 <= i <= MAX_INT64
    case UInt(u) => 0 <= u <= MAX_UINT64
    case String(s) => |s| <= MAX_STRING
    case Array(e) => IndexKeys(e) && Sorted(e) && EntriesWellFormed(e)
    case Object(e) => NameKeys(e) && Sorted(e) && EntriesWellFormed(e)
    case _ => true
  }

  predicate EntriesWellFormed(e: Entries) {
    e.Entry? ==> WellFormed(e.value) && EntriesWellFormed(e.rest)
  }

  lemma {:induction false} FoundIsWellFormed(e: Entries, k: Key)
    requires EntriesWellFormed(e)
    ensures Find(e, k).Some? ==> WellFormed(Find(e, k).value)
  {
    if e.Entry? { FoundIsWellFormed(e.rest, k); }
  }

  lemma {:induction false} PutKeepsWellFormed(e: Entries, k: Key, v: Value)
    requires EntriesWellFormed(e) && WellFormed(v)
    ensures EntriesWellFormed(Put(e, k, v))
    ensures IndexKeys(e) && k.Index? && k.index < TWO_TO_THE_32 ==> IndexKeys(Put(e, k, v))
    ensures NameKeys(e) && k.Name? && |k.name| < NAME_LIMIT ==> NameKeys(Put(e, k, v))
  {
    if e.Entry? { PutKeepsWellFormed(e.rest, k, v); }
  }

  // ----- nesting ---------------------------------------------------------------------------

  function Max(a: nat, b: nat): nat { if a >= b then a else b }

  /** 1 for a scalar or an empty container, one more for each level of children. */
  function Nesting(v: Value): nat {
    match v
    case Array(e) => 1 + EntriesNesting(e)
    case Object(e) => 1 + EntriesNesting(e)
    case _ => 1
  }

  function EntriesNesting(e: Entries): nat {
    match e case Nil => 0 case Entry(_, v, rest) => Max(Nesting(v), EntriesNesting(rest))
  }

  lemma {:induction false} FoundNesting(e: Entries, k: Key)
    ensures Find(e, k).Some? ==> Nesting(Find(e, k).value) <= EntriesNesting(e)
  {
    if e.Entry? { FoundNesting(e.rest, k); }
  }

  /** No leaf of the tree is a double. */
  predicate RealFree(v: Value) {
    match v
    case Real(_) => false
    case Array(e) => EntriesRealFree(e)
    case Object(e) => EntriesRealFree(e)
    case _ => true
  }

  predicate EntriesRealFree(e: Entries) { e.Entry? ==> RealFree(e.value) && EntriesRealFree(e.rest) }
}
