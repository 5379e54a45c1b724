/** Json::Value::operator< and operator==.

    The order looks at the type tag first, then at the payload; arrays and objects compare
    their child counts through a narrowing conversion to `int` and only then their entries,
    lexicographically as std::map does.  The theorems: on all trees without reals the order is
    total, and it is asymmetric exactly on trees that do not clash in their child counts; on trees
    whose nodes have fewer than 2^31 children it is a strict total order whose equivalence is
    operator==. */
module JsonOrder {
  import opened JsonValue

  function Tag(v: Value): nat {
    match v
    case Null => 0
    case Int(_) => 1
    case UInt(_) => 2
    case Real(_) => 3
    case NullString => 4
    case String(_) => 4
    case Bool(_) => 5
    case Array(_) => 6
    case Object(_) => 7
  }

  /** The conversion of a size difference to a 32-bit `int`. */
  function ToInt32(x: int): (r: int)
    ensures -TWO_TO_THE_32 / 2 <= r < TWO_TO_THE_32 / 2
  {
    var low := x % TWO_TO_THE_32;
    if low <= MAX_INT then low else low - TWO_TO_THE_32
  }

  /** Value::operator<.  `realLess` is the comparison of two doubles. */
  predicate Less(a: Value, b: Value, realLess: (nat, nat) -> bool)
    decreases Weight(a) + Weight(b)
  {
    if Tag(a) != Tag(b) then Tag(a) < Tag(b)
    else match a
      case Null => false
      case Int(i) => i < b.i
      case UInt(u) => u < b.u
      case Real(x) => realLess(x, b.bits)
      case NullString => b.String?
      case String(s) => b.String? && BytesLess(s, b.text)
      case Bool(p) => !p && b.b
      case Array(e) => EntriesLess(e, b.entries, realLess)
      case Object(e) => EntriesLess(e, b.entries, realLess)
  }

  predicate EntriesLess(x: Entries, y: Entries, realLess: (nat, nat) -> bool)
    decreases EntriesWeight(x) + EntriesWeight(y), 1
  {
    var delta := ToInt32(Count(x) - Count(y));
    if delta != 0 then delta < 0 else LexicographicLess(x, y, realLess)
  }

  /** std::lexicographical_compare over the two maps' (key, value) pairs. */
  predicate LexicographicLess(x: Entries, y: Entries, realLess: (nat, nat) -> bool)
    decreases EntriesWeight(x) + EntriesWeight(y), 0
  {
    if y.Nil? then false
    else if x.Nil? then true
    else if KeyLess(x.key, y.key) || (!KeyLess(y.key, x.key) && Less(x.value, y.value, realLess)) then true
    else if KeyLess(y.key, x.key) || (!KeyLess(x.key, y.key) && Less(y.value, x.value, realLess)) then false
    else LexicographicLess(x.rest, y.rest, realLess)
  }

  /** Value::operator==. */
  predicate Equal(a: Value, b: Value, realEqual: (nat, nat) -> bool) {
    Tag(a) == Tag(b) &&
    match a
    case Null => true
    case Int(i) => i == b.i
    case UInt(u) => u == b.u
    case Real(x) => realEqual(x, b.bits)
    case NullString => b.NullString?
    case String(s) => b.String? && |s| == |b.text| && Memcmp(s, b.text, |s|) == 0
    case Bool(p) => p == b.b
    case Array(e) => Count(e) == Count(b.entries) && EntriesEqual(e, b.entries, realEqual)
    case Object(e) => Count(e) == Count(b.entries) && EntriesEqual(e, b.entries, realEqual)
  }

  predicate KeyEqual(a: Key, b: Key) {
    match a
    case Index(i) => b.Index? && i == b.index
    case Name(s) => b.Name? && |s| == |b.name| && Memcmp(s, b.name, |s|) == 0
  }

  predicate EntriesEqual(x: Entries, y: Entries, realEqual: (nat, nat) -> bool)
    requires Count(x) == Count(y)
  {
    x.Entry? ==>
      KeyEqual(x.key, y.key) && Equal(x.value, y.value, realEqual) && EntriesEqual(x.rest, y.rest, realEqual)
  }

  // ----- what the order is defined on ----------------------------------------------------

  /** No node has 2^31 children or more. */
  predicate Narrow(v: Value) {
    match v
    case Array(e) => Count(e) <= MAX_INT && EntriesNarrow(e)
    case Object(e) => Count(e) <= MAX_INT && EntriesNarrow(e)
    case _ => true
  }

  predicate EntriesNarrow(e: Entries) {
    e.Entry? ==> Narrow(e.value) && EntriesNarrow(e.rest)
  }

  predicate Comparable(v: Value) { RealFree(v) && Narrow(v) }

  predicate EntriesComparable(e: Entries) { EntriesRealFree(e) && EntriesNarrow(e) }

  // ----- operator== is equality ----------------------------------------------------------

  lemma {:induction false} MemcmpZero(a: string, b: string, n: nat)
    requires n <= |a| && n <= |b|
    ensures Memcmp(a, b, n) == 0 <==> a[..n] == b[..n]
  {
    if n > 0 {
      MemcmpZero(a[1..], b[1..], n - 1);
      assert a[..n] == [a[0]] + a[1..][..n - 1];
      assert b[..n] == [b[0]] + b[1..][..n - 1];
      if a[..n] == b[..n] {
        assert a[0] == a[..n][0] == b[..n][0] == b[0];
        assert a[1..][..n - 1] == a[..n][1..] == b[..n][1..] == b[1..][..n - 1];
      }
    }
  }

  lemma SameBytes(a: string, b: string)
    requires |a| == |b|
    ensures Memcmp(a, b, |a|) == 0 <==> a == b
  {
    MemcmpZero(a, b, |a|);
    assert a[..|a|] == a && b[..|b|] == b;
  }

  /** operator== holds of two real-free trees exactly when they are the same tree. */
  lemma {:induction false} EqualIsIdentity(a: Value, b: Value, realEqual: (nat, nat) -> bool)
    requires RealFree(a) && RealFree(b)
    ensures Equal(a, b, realEqual) <==> a == b
    decreases a
  {
    match a
    case String(s) => if b.String? && |s| == |b.text| { SameBytes(s, b.text); }
    case Array(e) => if b.Array? && Count(e) == Count(b.entries) { EntriesEqualIsIdentity(e, b.entries, realEqual); }
    case Object(e) => if b.Object? && Count(e) == Count(b.entries) { EntriesEqualIsIdentity(e, b.entries, realEqual); }
    case _ =>
  }

  lemma {:induction false} EntriesEqualIsIdentity(x: Entries, y: Entries, realEqual: (nat, nat) -> bool)
    requires Count(x) == Count(y)
    requires EntriesRealFree(x) && EntriesRealFree(y)
    ensures EntriesEqual(x, y, realEqual) <==> x == y
    decreases x
  {
    if x.Entry? {
      if x.key.Name? && y.key.Name? && |x.key.name| == |y.key.name| { SameBytes(x.key.name, y.key.name); }
      EqualIsIdentity(x.value, y.value, realEqual);
      EntriesEqualIsIdentity(x.rest, y.rest, realEqual);
    }
  }

  // ----- where the child counts mislead the order -------------------------------------------

  /** The first difference between the two trees is a pair of nodes whose child counts differ by
      2^31 modulo 2^32: narrowed to an int, that difference is negative in both directions. */
  predicate Clash(a: Value, b: Value) {
    match a
    case Array(e) => b.Array? && EntriesClash(e, b.entries)
    case Object(e) => b.Object? && EntriesClash(e, b.entries)
    case _ => false
  }

  predicate EntriesClash(x: Entries, y: Entries)
    decreases x, 1
  {
    var d := (Count(x) - Count(y)) % TWO_TO_THE_32;
    d == TWO_TO_THE_32 / 2 || (d == 0 && FirstDifferenceClashes(x, y))
  }

  predicate FirstDifferenceClashes(x: Entries, y: Entries)
    decreases x, 0
  {
    x.Entry? && y.Entry? && x.key == y.key &&
    (Clash(x.value, y.value) || (x.value == y.value && FirstDifferenceClashes(x.rest, y.rest)))
  }

  lemma {:induction false} NoSelfClash(a: Value)
    ensures !Clash(a, a)
    decreases a
  {
    match a
    case Array(e) => NoEntriesSelfClash(e);
    case Object(e) => NoEntriesSelfClash(e);
    case _ =>
  }

  lemma {:induction false} NoEntriesSelfClash(x: Entries)
    ensures !FirstDifferenceClashes(x, x)
    decreases x
  {
    if x.Entry? {
      NoSelfClash(x.value);
      NoEntriesSelfClash(x.rest);
    }
  }

  /** Below 2^31 children no two trees clash. */
  lemma {:induction false} NarrowNeverClash(a: Value, b: Value)
    requires Narrow(a) && Narrow(b)
    ensures !Clash(a, b)
    decreases a
  {
    match a
    case Array(e) => if b.Array? { EntriesNarrowNeverClash(e, b.entries); }
    case Object(e) => if b.Object? { EntriesNarrowNeverClash(e, b.entries); }
    case _ =>
  }

  lemma {:induction false} EntriesNarrowNeverClash(x: Entries, y: Entries)
    requires EntriesNarrow(x) && EntriesNarrow(y)
    ensures !FirstDifferenceClashes(x, y)
    ensures Count(x) <= MAX_INT && Count(y) <= MAX_INT ==> !EntriesClash(x, y)
    decreases x
  {
    if x.Entry? && y.Entry? {
      NarrowNeverClash(x.value, y.value);
      EntriesNarrowNeverClash(x.rest, y.rest);
    }
    if Count(x) <= MAX_INT && Count(y) <= MAX_INT { SmallDifference(Count(x) - Count(y)); }
  }

  lemma RemainderIs(d: int, k: int, low: int)
    requires d == TWO_TO_THE_32 * k + low && 0 <= low < TWO_TO_THE_32
    ensures d % TWO_TO_THE_32 == low
  {
  }

  /** The remainder of a difference the other way round. */
  lemma OppositeRemainder(d: int)
    ensures var low := d % TWO_TO_THE_32; -d % TWO_TO_THE_32 == if low == 0 then 0 else TWO_TO_THE_32 - low
  {
    var k, low := d / TWO_TO_THE_32, d % TWO_TO_THE_32;
    if low == 0 { RemainderIs(-d, -k, 0); } else { RemainderIs(-d, -k - 1, TWO_TO_THE_32 - low); }
  }

  /** The two narrowed differences of a pair of counts. */
  lemma NarrowedDifferences(d: int)
    ensures ToInt32(d) == 0 <==> d % TWO_TO_THE_32 == 0
    ensures ToInt32(d) == 0 <==> ToInt32(-d) == 0
    ensures ToInt32(d) < 0 && ToInt32(-d) < 0 <==> d % TWO_TO_THE_32 == TWO_TO_THE_32 / 2
    ensures ToInt32(d) != 0 ==> ToInt32(d) < 0 || ToInt32(-d) < 0
  {
    OppositeRemainder(d);
  }

  /** A difference that fits in an int is not changed. */
  lemma SmallDifference(d: int)
    requires -TWO_TO_THE_32 / 2 < d < TWO_TO_THE_32 / 2
    ensures ToInt32(d) == d && d % TWO_TO_THE_32 != TWO_TO_THE_32 / 2
  {
    RemainderIs(d, if d < 0 then -1 else 0, if d < 0 then d + TWO_TO_THE_32 else d);
  }

  // ----- strict total order --------------------------------------------------------------

  /** On all trees without reals: one of the two is less, or they are the same; and both are
      less than each other exactly when they clash. */
  lemma {:induction false} Trichotomy(a: Value, b: Value, realLess: (nat, nat) -> bool)
    requires RealFree(a) && RealFree(b)
    ensures Less(a, b, realLess) && Less(b, a, realLess) <==> Clash(a, b)
    ensures Less(a, b, realLess) || Less(b, a, realLess) || a == b
    decreases Weight(a) + Weight(b)
  {
    if Tag(a) == Tag(b) {
      match a
      case String(s) => if b.String? { KeyTrichotomy(Name(s), Name(b.text)); }
      case Array(e) => EntriesTrichotomy(e, b.entries, realLess);
      case Object(e) => EntriesTrichotomy(e, b.entries, realLess);
      case _ =>
    }
  }

  lemma {:induction false} EntriesTrichotomy(x: Entries, y: Entries, realLess: (nat, nat) -> bool)
    requires EntriesRealFree(x) && EntriesRealFree(y)
    ensures EntriesLess(x, y, realLess) && EntriesLess(y, x, realLess) <==> EntriesClash(x, y)
    ensures EntriesLess(x, y, realLess) || EntriesLess(y, x, realLess) || x == y
    decreases EntriesWeight(x) + EntriesWeight(y), 1
  {
    hide LexicographicLess, ToInt32, Count, FirstDifferenceClashes;
    NarrowedDifferences(Count(x) - Count(y));
    LexicographicTrichotomy(x, y, realLess);
    assert -(Count(x) - Count(y)) == Count(y) - Count(x);
  }

  lemma {:induction false} LexicographicTrichotomy(x: Entries, y: Entries, realLess: (nat, nat) -> bool)
    requires EntriesRealFree(x) && EntriesRealFree(y)
    ensures LexicographicLess(x, y, realLess) && LexicographicLess(y, x, realLess) <==> FirstDifferenceClashes(x, y)
    ensures LexicographicLess(x, y, realLess) || LexicographicLess(y, x, realLess) || x == y
    decreases EntriesWeight(x) + EntriesWeight(y), 0
  {
    hide Less, Clash, KeyLess;
    if x.Entry? && y.Entry? {
      KeyTrichotomy(x.key, y.key);
      Trichotomy(x.value, y.value, realLess);
      NoSelfClash(x.value);
      LexicographicTrichotomy(x.rest, y.rest, realLess);
    }
  }

  lemma {:induction false} Transitive(a: Value, b: Value, c: Value, realLess: (nat, nat) -> bool)
    requires Comparable(a) && Comparable(b) && Comparable(c)
    requires Less(a, b, realLess) && Less(b, c, realLess)
    ensures Less(a, c, realLess)
    decreases a
  {
    if Tag(a) == Tag(b) == Tag(c) {
      match a
      case String(s) => KeyTransitive(Name(s), Name(b.text), Name(c.text));
      case Array(e) => NarrowDifference(e, b.entries, c.entries); EntriesTransitive(e, b.entries, c.entries, realLess);
      case Object(e) => NarrowDifference(e, b.entries, c.entries); EntriesTransitive(e, b.entries, c.entries, realLess);
      case _ =>
    }
  }

  /** The size differences of x to y and of y to z, as the order sees them, add up to less than an
      int holds: the order then sees z as the smaller one of x and z. */
  predicate Overshoots(x: Entries, y: Entries, z: Entries) {
    ToInt32(Count(x) - Count(y)) + ToInt32(Count(y) - Count(z)) < -(TWO_TO_THE_32 / 2)
  }

  lemma NarrowDifference(x: Entries, y: Entries, z: Entries)
    requires Count(x) <= MAX_INT && Count(y) <= MAX_INT && Count(z) <= MAX_INT
    ensures !Overshoots(x, y, z)
  {
    hide Count, ToInt32;
    SmallDifference(Count(x) - Count(y));
    SmallDifference(Count(y) - Count(z));
  }

  lemma NarrowedSum(d: int, e: int)
    requires ToInt32(d) <= 0 && ToInt32(e) <= 0
    ensures var sum := ToInt32(d) + ToInt32(e);
      ToInt32(d + e) == if sum < -(TWO_TO_THE_32 / 2) then sum + TWO_TO_THE_32 else sum
  {
    var j := NarrowedBy(d);
    var k := NarrowedBy(e);
    var sum := ToInt32(d) + ToInt32(e);
    if sum == 0 {
      RemainderIs(d + e, j + k, 0);
    } else {
      RemainderIs(d + e, j + k - 1, sum + TWO_TO_THE_32);
    }
  }

  lemma NarrowedBy(d: int) returns (k: int)
    ensures d == ToInt32(d) + TWO_TO_THE_32 * k
  {
    k := if d % TWO_TO_THE_32 <= MAX_INT then d / TWO_TO_THE_32 else d / TWO_TO_THE_32 + 1;
  }

  /** Transitivity of the size-first map order, for maps of any size with comparable values: it
      fails exactly when the size differences overshoot, unless two differences of 2^31 make the
      sizes of x and z look equal and their entries decide. */
  lemma {:induction false} EntriesTransitive(x: Entries, y: Entries, z: Entries, realLess: (nat, nat) -> bool)
    requires EntriesComparable(x) && EntriesComparable(y) && EntriesComparable(z)
    requires EntriesLess(x, y, realLess) && EntriesLess(y, z, realLess)
    ensures EntriesLess(x, z, realLess) <==>
      !Overshoots(x, y, z) || ((Count(x) - Count(z)) % TWO_TO_THE_32 == 0 && LexicographicLess(x, z, realLess))
    decreases x, 1
  {
    hide LexicographicLess, ToInt32, Count, EntriesComparable;
    var d, e := Count(x) - Count(y), Count(y) - Count(z);
    NarrowedSum(d, e);
    assert d + e == Count(x) - Count(z);
    NarrowedDifferences(d + e);
    if ToInt32(d) == 0 && ToInt32(e) == 0 { LexicographicTransitive(x, y, z, realLess); }
  }

  lemma {:induction false} LexicographicTransitive(x: Entries, y: Entries, z: Entries, realLess: (nat, nat) -> bool)
    requires EntriesComparable(x) && EntriesComparable(y) && EntriesComparable(z)
    requires LexicographicLess(x, y, realLess) && LexicographicLess(y, z, realLess)
    ensures LexicographicLess(x, z, realLess)
    decreases x, 0
  {
    if x.Entry? {
      NarrowNeverClash(x.value, y.value);
      NarrowNeverClash(y.value, z.value);
      KeyTrichotomy(x.key, y.key);
      KeyTrichotomy(y.key, z.key);
      Trichotomy(x.value, y.value, realLess);
      Trichotomy(y.value, z.value, realLess);
      if KeyLess(x.key, y.key) && KeyLess(y.key, z.key) {
        KeyTransitive(x.key, y.key, z.key);
      } else if x.key == y.key == z.key {
        if Less(x.value, y.value, realLess) && Less(y.value, z.value, realLess) {
          Transitive(x.value, y.value, z.value, realLess);
        } else if x.value == y.value == z.value {
          LexicographicTransitive(x.rest, y.rest, z.rest, realLess);
        }
      }
    }
  }

  /** On all trees without reals operator== is the equivalence of operator<, and exactly one of
      a < b, a == b and b < a holds if and only if the trees do not clash. */
  lemma StrictTotalOrder(a: Value, b: Value, realLess: (nat, nat) -> bool, realEqual: (nat, nat) -> bool)
    requires RealFree(a) && RealFree(b)
    ensures Equal(a, b, realEqual) <==> !Less(a, b, realLess) && !Less(b, a, realLess)
    ensures !Clash(a, b) <==> (Less(a, b, realLess) <==> !Less(b, a, realLess) && !Equal(a, b, realEqual))
    ensures !Less(a, a, realLess) && Equal(a, a, realEqual)
  {
    NoSelfClash(a);
    Trichotomy(a, b, realLess);
    Trichotomy(a, a, realLess);
    EqualIsIdentity(a, b, realEqual);
    EqualIsIdentity(a, a, realEqual);
  }

  // ----- which order it is ---------------------------------------------------------------

  /** An integer is less than its successor; with transitivity that is the numeric order. */
  lemma Successor(i: int, realLess: (nat, nat) -> bool)
    ensures Less(Int(i), Int(i + 1), realLess)
    ensures Less(UInt(i), UInt(i + 1), realLess)
  {
  }

  lemma {:induction false} IntegersAscend(i: int, n: nat, realLess: (nat, nat) -> bool)
    ensures Less(Int(i), Int(i + n + 1), realLess) && Less(UInt(i), UInt(i + n + 1), realLess)
    decreases n
  {
    hide Less;
    if n == 0 {
      Successor(i, realLess);
    } else {
      IntegersAscend(i, n - 1, realLess);
      Successor(i + n, realLess);
      Transitive(Int(i), Int(i + n), Int(i + n + 1), realLess);
      Transitive(UInt(i), UInt(i + n), UInt(i + n + 1), realLess);
    }
  }

  /** false before true, strings in dictionary order, a null string pointer first, and doubles in
      the order given for them. */
  lemma BoolsAndStringsAscend(a: string, b: string, x: nat, y: nat, realLess: (nat, nat) -> bool)
    ensures Less(Bool(false), Bool(true), realLess)
    ensures Less(String(a), String(b), realLess) <==> DictionaryLess(a, b)
    ensures Less(NullString, String(a), realLess)
    ensures Less(Real(x), Real(y), realLess) <==> realLess(x, y)
  {
    BytesLessIsDictionaryLess(a, b);
  }

  /** Null, integers, unsigned integers, doubles, strings, booleans, arrays and objects follow one
      another in this order, whatever they hold. */
  lemma TypesAscend(i: int, u: int, x: nat, s: string, p: bool, e: Entries, o: Entries, realLess: (nat, nat) -> bool)
    ensures var line := [Null, Int(i), UInt(u), Real(x), String(s), Bool(p), Array(e), Object(o)];
      forall m, n :: 0 <= m < n < |line| ==> Less(line[m], line[n], realLess) && !Less(line[n], line[m], realLess)
  {
    hide EntriesLess, BytesLess;
  }

  /** Of two arrays or objects with fewer than 2^31 children the one with fewer is less. */
  lemma FewerFirst(x: Entries, y: Entries, realLess: (nat, nat) -> bool)
    requires Count(x) < Count(y) <= MAX_INT
    ensures Less(Array(x), Array(y), realLess) && Less(Object(x), Object(y), realLess)
  {
    hide Count, ToInt32;
    SmallDifference(Count(x) - Count(y));
  }

  lemma {:induction false} CountAppend(p: Entries, x: Entries)
    ensures Count(Append(p, x)) == Count(p) + Count(x)
  {
    if p.Entry? { CountAppend(p.rest, x); }
  }

  /** Of two maps of one size that agree up to an entry the entry decides: the one with the smaller
      key is less, and of two entries with one key the one with the smaller value. */
  lemma {:induction false} FirstDifferenceDecides(p: Entries, x: Entries, y: Entries, realLess: (nat, nat) -> bool)
    requires EntriesRealFree(p) && EntriesNarrow(p) && x.Entry? && y.Entry? && Count(x) == Count(y)
    requires KeyLess(x.key, y.key) || (x.key == y.key && Less(x.value, y.value, realLess))
    ensures Less(Array(Append(p, x)), Array(Append(p, y)), realLess)
    ensures Less(Object(Append(p, x)), Object(Append(p, y)), realLess)
  {
    hide LexicographicLess, KeyLess;
    CountAppend(p, x);
    CountAppend(p, y);
    PrefixSkipped(p, x, y, realLess);
    assert LexicographicLess(x, y, realLess) by { HeadDecides(x, y, realLess); }
  }

  lemma HeadDecides(x: Entries, y: Entries, realLess: (nat, nat) -> bool)
    requires x.Entry? && y.Entry?
    requires KeyLess(x.key, y.key) || (x.key == y.key && Less(x.value, y.value, realLess))
    ensures LexicographicLess(x, y, realLess)
  {
    KeyTrichotomy(x.key, y.key);
  }

  lemma {:induction false} PrefixSkipped(p: Entries, x: Entries, y: Entries, realLess: (nat, nat) -> bool)
    requires EntriesRealFree(p) && EntriesNarrow(p)
    ensures LexicographicLess(Append(p, x), Append(p, y), realLess) == LexicographicLess(x, y, realLess)
  {
    if p.Entry? {
      hide Less;
      KeyTrichotomy(p.key, p.key);
      NarrowNeverClash(p.value, p.value);
      Trichotomy(p.value, p.value, realLess);
      PrefixSkipped(p.rest, x, y, realLess);
    }
  }

  /** Storing a smaller value under a key makes an array or object smaller. */
  lemma {:induction false} SmallerChild(e: Entries, k: Key, w: Value, realLess: (nat, nat) -> bool)
    requires EntriesRealFree(e) && EntriesNarrow(e) && Sorted(e)
    requires Find(e, k).Some? && Less(w, Find(e, k).value, realLess)
    ensures Less(Array(Put(e, k, w)), Array(e), realLess) && Less(Object(Put(e, k, w)), Object(e), realLess)
  {
    hide Less, Sorted;
    var p, x := EntryOf(e, k);
    assert Less(w, x.value, realLess);
    CountsAlike(x, w);
    FirstDifferenceDecides(p, Entry(k, w, x.rest), x, realLess);
  }

  lemma CountsAlike(x: Entries, w: Value)
    requires x.Entry?
    ensures Count(Entry(x.key, w, x.rest)) == Count(x)
  {
  }

  /** A map cut in front of a key it holds. */
  lemma {:induction false} EntryOf(e: Entries, k: Key) returns (p: Entries, x: Entries)
    requires Sorted(e) && Find(e, k).Some? && EntriesRealFree(e) && EntriesNarrow(e)
    ensures e == Append(p, x) && x.Entry? && x.key == k && x.value == Find(e, k).value
    ensures EntriesRealFree(p) && EntriesNarrow(p)
    ensures forall w :: Put(e, k, w) == Append(p, Entry(k, w, x.rest))
  {
    KeyTrichotomy(e.key, k);
    if e.key == k {
      p, x := Nil, e;
    } else {
      var q;
      q, x := EntryOf(e.rest, k);
      p := Entry(e.key, e.value, q);
      if KeyLess(k, e.key) {
        AllAboveBelow(k, e.key, e.rest);
        AllAboveMisses(k, e.rest);
        assert false;
      }
    }
  }

  // ----- the failing cases exist ---------------------------------------------------------

  /** Indices i up to n, each holding null. */
  function NullsFrom(i: nat, n: nat): (e: Entries)
    requires i <= n
    ensures Count(e) == n - i && EntriesComparable(e)
    decreases n - i
  {
    if i == n then Nil else Entry(Index(i), Null, NullsFrom(i + 1, n))
  }

  /** The empty array and the array of 2^31 nulls are each less than the other. */
  lemma AsymmetryFails(realLess: (nat, nat) -> bool)
    ensures var a, b := Array(Nil), Array(NullsFrom(0, 0x8000_0000));
      Less(a, b, realLess) && Less(b, a, realLess)
  {
  }

  /** Arrays of 0, 3 * 2^29 and 3 * 2^30 nulls are each less than the next, all the way round. */
  lemma TransitivityFails(realLess: (nat, nat) -> bool)
    ensures var a, b, c := Array(Nil), Array(NullsFrom(0, 0x6000_0000)), Array(NullsFrom(0, 0xC000_0000));
      Less(a, b, realLess) && Less(b, c, realLess) && Less(c, a, realLess)
  {
  }
}
