/** Arrays edited in place: size, operator[], append, resize and removeIndex.

    An array stores only some of its indices.  Seen from outside it is the sequence of its
    elements, null where nothing is stored, as long as the highest stored index plus one. */
module JsonArray {
  import opened JsonValue

  /** The array as a sequence. */
  function Elements(e: Entries): (s: seq<Value>)
    ensures |s| == Span(e)
    ensures forall i :: 0 <= i < |s| ==> s[i] == At(e, i)
  {
    seq(Span(e), i requires 0 <= i < Span(e) => At(e, i))
  }

  predicate Stored(e: Entries, i: int) { 0 <= i && Find(e, Index(i)).Some? }

  predicate Wf(e: Entries) { Sorted(e) && IndexKeys(e) }

  // ----- the map operations through Find -----------------------------------------------------

  lemma PutFinds(e: Entries, i: nat, v: Value)
    requires Wf(e) && i < TWO_TO_THE_32
    ensures Wf(Put(e, Index(i), v))
    ensures forall j: nat :: Find(Put(e, Index(i), v), Index(j)) == if j == i then Some(v) else Find(e, Index(j))
  {
    forall j: nat ensures Find(Put(e, Index(i), v), Index(j)) == if j == i then Some(v) else Find(e, Index(j)) {
      PutMeaning(e, Index(i), v, Index(j));
    }
    PutMeaning(e, Index(i), v, Index(i));
    PutKeepsIndexKeys(e, i, v);
  }

  lemma {:induction false} PutKeepsIndexKeys(e: Entries, i: nat, v: Value)
    requires IndexKeys(e) && i < TWO_TO_THE_32
    ensures IndexKeys(Put(e, Index(i), v))
  {
    if e.Entry? { PutKeepsIndexKeys(e.rest, i, v); }
  }

  lemma EraseFinds(e: Entries, i: nat)
    requires Wf(e)
    ensures Wf(Erase(e, Index(i)))
    ensures forall j: nat :: Find(Erase(e, Index(i)), Index(j)) == if j == i then None else Find(e, Index(j))
  {
    forall j: nat ensures Find(Erase(e, Index(i)), Index(j)) == if j == i then None else Find(e, Index(j)) {
      EraseMeaning(e, Index(i), Index(j));
    }
    EraseMeaning(e, Index(i), Index(i));
    EraseKeepsIndexKeys(e, i);
  }

  lemma {:induction false} EraseKeepsIndexKeys(e: Entries, i: nat)
    requires IndexKeys(e)
    ensures IndexKeys(Erase(e, Index(i)))
  {
    if e.Entry? { EraseKeepsIndexKeys(e.rest, i); }
  }

  lemma {:induction false} StoredBelowSpan(e: Entries, i: nat)
    requires Wf(e)
    ensures Find(e, Index(i)).Some? ==> i < Span(e)
    ensures e.Entry? ==> e.key.index < Span(e) && Find(e, Index(Span(e) - 1)).Some?
    ensures Span(e) <= TWO_TO_THE_32 && (e.Nil? <==> Span(e) == 0)
    decreases e
  {
    if e.Entry? { StoredBelowSpan(e.rest, i); }
  }

  /** The span is the one number that is 0 or just above a stored index with none beyond. */
  lemma SpanIs(e: Entries, n: nat)
    requires Wf(e)
    requires n == 0 || Stored(e, n - 1)
    requires forall i: nat :: n <= i ==> Find(e, Index(i)) == None
    ensures Span(e) == n
  {
    if n > 0 { StoredBelowSpan(e, n - 1); }
    StoredBelowSpan(e, 0);
  }

  // ----- the sequence operations ---------------------------------------------------------------

  function RemoveAt(s: seq<Value>, i: nat): seq<Value>
    requires i < |s|
  {
    s[..i] + s[i + 1..]
  }

  function Nulls(n: nat): (s: seq<Value>)
    ensures |s| == n && forall i :: 0 <= i < n ==> s[i] == Null
  {
    seq(n, _ => Null)
  }

  /** Storing at the end, with a gap in front when the index is higher. */
  lemma PutBeyond(e: Entries, i: nat, v: Value)
    requires Wf(e) && Span(e) <= i < TWO_TO_THE_32
    ensures Elements(Put(e, Index(i), v)) == Elements(e) + Nulls(i - Span(e)) + [v]
  {
    hide Find, Span, Put, Erase, Sorted, IndexKeys;
    var e1 := Put(e, Index(i), v);
    PutFinds(e, i, v);
    forall j: nat | Span(e) <= j ensures Find(e, Index(j)) == None { StoredBelowSpan(e, j); }
    SpanIs(e1, i + 1);
    var s := Elements(e) + Nulls(i - Span(e)) + [v];
    forall j | 0 <= j < i + 1 ensures Elements(e1)[j] == s[j] { }
  }

  /** Storing at an index in range replaces that element. */
  lemma PutWithin(e: Entries, i: nat, v: Value)
    requires Wf(e) && i < Span(e)
    ensures Wf(Put(e, Index(i), v))
    ensures Elements(Put(e, Index(i), v)) == Elements(e)[i := v]
  {
    StoredBelowSpan(e, i);
    hide Find, Span, Put, Erase, Sorted, IndexKeys;
    var e1 := Put(e, Index(i), v);
    PutFinds(e, i, v);
    forall j: nat | Span(e) <= j ensures Find(e1, Index(j)) == None { StoredBelowSpan(e, j); }
    SpanIs(e1, Span(e));
  }

  /** Whether removing a stored index shortens the array by exactly that element. */
  predicate RemovesOne(e: Entries, index: nat) {
    index + 1 < Span(e) || index == 0 || Stored(e, index - 1)
  }

  /** The map after the shift and the erasure, described by what it stores. */
  ghost predicate Shifted(before: Entries, after: Entries, index: nat) {
    && (forall j: nat {:trigger Find(after, Index(j))} :: j < index ==> Find(after, Index(j)) == Find(before, Index(j)))
    && (forall j: nat {:trigger Find(after, Index(j))} :: index <= j && j + 1 < Span(before) ==> Find(after, Index(j)) == Some(At(before, j + 1)))
    && (forall j: nat {:trigger Find(after, Index(j))} :: index <= j && Span(before) <= j + 1 ==> Find(after, Index(j)) == None)
  }

  /** The map after the shift alone: the last element is still there. */
  ghost predicate MovedLeft(before: Entries, after: Entries, index: nat) {
    && (forall j: nat {:trigger Find(after, Index(j))} :: j < index ==> Find(after, Index(j)) == Find(before, Index(j)))
    && (forall j: nat {:trigger Find(after, Index(j))} :: index <= j && j + 1 < Span(before) ==> Find(after, Index(j)) == Some(At(before, j + 1)))
    && (forall j: nat {:trigger Find(after, Index(j))} :: Span(before) <= j ==> Find(after, Index(j)) == None)
  }

  /** The map in the middle of the shift: indices below `i` are done, those above untouched. */
  ghost predicate MovedUpTo(before: Entries, now: Entries, index: nat, i: nat) {
    && (forall j: nat {:trigger Find(now, Index(j))} :: j < index || i < j ==> Find(now, Index(j)) == Find(before, Index(j)))
    && (forall j: nat {:trigger Find(now, Index(j))} :: index <= j < i ==> Find(now, Index(j)) == Some(At(before, j + 1)))
  }

  lemma NothingMoved(e: Entries, index: nat)
    ensures MovedUpTo(e, e, index, index)
  {
  }

  lemma MoveStep(before: Entries, now: Entries, index: nat, i: nat)
    requires Wf(now) && index <= i && i + 1 < TWO_TO_THE_32 && MovedUpTo(before, now, index, i)
    ensures var next := At(now, i + 1);
      var after := Put(Put(now, Index(i + 1), next), Index(i), next);
      Wf(after) && MovedUpTo(before, after, index, i + 1)
  {
    hide Find, Put, Wf;
    var next := At(now, i + 1);
    assert next == At(before, i + 1);
    TwoPuts(now, i, next);
  }

  lemma AllMoved(before: Entries, now: Entries, index: nat)
    requires Wf(before) && index < Span(before) && MovedUpTo(before, now, index, Span(before) - 1)
    ensures MovedLeft(before, now, index)
  {
    hide Find, Span, Wf;
    forall j: nat | Span(before) <= j ensures Find(now, Index(j)) == None { StoredBelowSpan(before, j); }
  }

  lemma EraseLast(before: Entries, after: Entries, index: nat)
    requires Wf(after) && index < Span(before) && MovedLeft(before, after, index)
    ensures var erased := Erase(after, Index(Span(before) - 1)); Wf(erased) && Shifted(before, erased, index)
  {
    hide Find, Span, Erase, Sorted, IndexKeys;
    EraseFinds(after, Span(before) - 1);
  }

  /** removeIndex deletes one element with a left shift exactly when the index is not the last
      one or nothing is missing in front of it; otherwise the gap in front goes too. */
  lemma RemovalExact(before: Entries, after: Entries, index: nat)
    requires Wf(before) && Wf(after) && Stored(before, index) && index < Span(before)
    requires Shifted(before, after, index)
    ensures Elements(after) == RemoveAt(Elements(before), index) <==> RemovesOne(before, index)
    ensures RemovesOne(before, index) ==> Span(after) == Span(before) - 1
    ensures !RemovesOne(before, index) ==> LostWithGap(Elements(before), Elements(after))
  {
    hide Span, Find;
    if RemovesOne(before, index) {
      RemovedOne(before, after, index);
    } else {
      RemovedWithGap(before, after, index);
    }
  }

  /** More than the last element is gone: it and all the null elements in front of it. */
  ghost predicate LostWithGap(before: seq<Value>, after: seq<Value>) {
    && |after| < |before| - 1
    && after == before[..|after|]
    && forall j :: |after| <= j < |before| - 1 ==> before[j] == Null
  }

  lemma RemovedWithGap(before: Entries, after: Entries, index: nat)
    requires Wf(before) && Wf(after) && Stored(before, index) && index < Span(before)
    requires Shifted(before, after, index) && !RemovesOne(before, index)
    ensures LostWithGap(Elements(before), Elements(after))
  {
    hide Span, Find;
    StoredBelowSpan(after, 0);
    var s, t := Elements(before), Elements(after);
    forall j | |t| <= j < |s| - 1 ensures s[j] == Null { StoredBelowSpan(after, j); }
    forall j | 0 <= j < |t| ensures t[j] == s[j] { assert t[j] == At(after, j); }
  }

  /** Two elements with a gap of four between them. */
  function Gapped(v: Value, w: Value): Entries {
    Entry(Index(0), v, Entry(Index(5), w, Nil))
  }

  lemma GappedFinds(v: Value, w: Value, j: nat)
    ensures Find(Gapped(v, w), Index(j)) == if j == 0 then Some(v) else if j == 5 then Some(w) else None
    ensures Span(Gapped(v, w)) == 6 && Wf(Gapped(v, w))
  {
    var last := Entry(Index(5), w, Nil);
    assert Find(last, Index(j)) == if j == 5 then Some(w) else None;
    assert Span(last) == 6 && Sorted(last) && IndexKeys(last) && AllAbove(Index(0), last);
  }

  /** The failing case exists: with indices 0 and 5 stored, removing 5 removes 1 to 4 as well. */
  lemma GapIsLost(v: Value, w: Value, after: Entries)
    requires Wf(after) && Shifted(Gapped(v, w), after, 5)
    ensures Elements(after) == [v]
  {
    hide Gapped, Find, Span;
    GappedFinds(v, w, 0);
    forall j: nat | 1 <= j ensures Find(after, Index(j)) == None { GappedFinds(v, w, j); }
    SpanIs(after, 1);
  }

  /** The failing case of resize: with indices 0 and 5 stored, shrinking to 3 leaves one element. */
  lemma ShrinkIntoGap(v: Value, w: Value, after: Entries)
    requires Wf(after)
    requires forall j: nat :: Find(after, Index(j)) == if j < 3 then Find(Gapped(v, w), Index(j)) else None
    ensures Elements(after) == [v]
  {
    hide Gapped, Find, Span;
    GappedFinds(v, w, 0);
    forall j: nat | 1 <= j ensures Find(after, Index(j)) == None { GappedFinds(v, w, j); }
    SpanIs(after, 1);
  }

  lemma RemovedOne(before: Entries, after: Entries, index: nat)
    requires Wf(before) && Wf(after) && Stored(before, index) && index < Span(before)
    requires Shifted(before, after, index) && RemovesOne(before, index)
    ensures Span(after) == Span(before) - 1
    ensures Elements(after) == RemoveAt(Elements(before), index)
  {
    hide Find, Span;
    var n := Span(before);
    assert n == 1 || Stored(after, n - 2);
    SpanIs(after, n - 1);
    var s, t := Elements(after), RemoveAt(Elements(before), index);
    forall j | 0 <= j < n - 1 ensures s[j] == t[j] {
      assert t[j] == if j < index then At(before, j) else At(before, j + 1);
    }
  }

  /** Erasing from `n` on leaves n elements exactly when element n - 1 is stored. */
  lemma Truncated(before: Entries, after: Entries, n: nat)
    requires Wf(before) && Wf(after) && 0 < n <= Span(before)
    requires forall j: nat :: Find(after, Index(j)) == if j < n then Find(before, Index(j)) else None
    ensures Span(after) == n <==> Stored(before, n - 1)
    ensures Stored(before, n - 1) ==> Elements(after) == Elements(before)[..n]
    ensures Span(after) <= n
  {
    hide Find, Span, Put, Erase, Sorted, IndexKeys;
    StoredBelowSpan(after, 0);
    if Stored(before, n - 1) {
      SpanIs(after, n);
    }
  }

  lemma WrappedSize(e: Entries)
    requires Wf(e)
    ensures Span(e) <= TWO_TO_THE_32
    ensures Span(e) % TWO_TO_THE_32 == if Span(e) < TWO_TO_THE_32 then Span(e) else 0
  {
    StoredBelowSpan(e, 0);
  }

  lemma NoNulls(s: seq<Value>, v: Value)
    ensures s + Nulls(0) + [v] == s + [v]
  {
    assert s + Nulls(0) == s;
  }

  /** Storing at the wrapped size. */
  lemma AppendMeaning(e: Entries, size: nat, v: Value)
    requires Wf(e) && Span(e) <= TWO_TO_THE_32 && size == if Span(e) < TWO_TO_THE_32 then Span(e) else 0
    ensures var e1 := Put(e, Index(size), v);
      Wf(e1) && Elements(e1) == if Span(e) < TWO_TO_THE_32 then Elements(e) + [v] else Elements(e)[0 := v]
  {
    hide Find, Span, Put, Sorted, IndexKeys;
    if Span(e) < TWO_TO_THE_32 {
      PutFinds(e, size, v);
      PutBeyond(e, size, v);
      NoNulls(Elements(e), v);
    } else {
      PutWithin(e, 0, v);
    }
  }

  lemma TwoPuts(e: Entries, i: nat, v: Value)
    requires Wf(e) && i + 1 < TWO_TO_THE_32
    ensures var e1 := Put(Put(e, Index(i + 1), v), Index(i), v);
      Wf(e1) && forall j: nat :: Find(e1, Index(j)) == if j == i || j == i + 1 then Some(v) else Find(e, Index(j))
  {
    hide Find, Put, Sorted, IndexKeys;
    PutFinds(e, i + 1, v);
    PutFinds(Put(e, Index(i + 1), v), i, v);
  }

  /** Subtracting one from the wrapped size gives the last index. */
  lemma LastIndex(e: Entries, index: nat, size: nat)
    requires Wf(e) && Stored(e, index) && size == Span(e) % TWO_TO_THE_32
    ensures (size - 1) % TWO_TO_THE_32 == Span(e) - 1 && index < Span(e)
  {
    StoredBelowSpan(e, index);
    if Span(e) < TWO_TO_THE_32 { assert size == Span(e); } else { assert size == 0; }
  }

  // ----- in place ------------------------------------------------------------------------------

  datatype Status = Ok | AssertionFailed

  class ValueCell {
    var value: Value

    constructor (v: Value)
      requires v.Array? ==> Wf(v.entries)
      ensures value == v && Sound()
    {
      value := v;
    }

    /** If the value is an array, its index map is in order. */
    ghost predicate Sound()
      reads this
    {
      value.Array? ==> Wf(value.entries)
    }

    /** What the array operations assert: the value is an array or, before the first edit, null. */
    ghost predicate Valid()
      reads this
    {
      Sound() && (value.Null? || value.Array?)
    }

    ghost function Contents(): seq<Value>
      reads this
    {
      if value.Array? then Elements(value.entries) else []
    }

    /** Value::size. */
    method Size() returns (n: nat)
      requires Valid()
      ensures n == |Contents()| % TWO_TO_THE_32
    {
      n := if value.Null? then 0 else ArraySize(value.entries);
    }

    /** The non-const operator[]: a null value becomes an array, a missing element null. */
    method Subscript(index: nat)
      requires Valid() && index < TWO_TO_THE_32
      modifies this
      ensures Valid() && value.Array? && Stored(value.entries, index)
      ensures Contents() == if index < |old(Contents())| then old(Contents())
                            else old(Contents()) + Nulls(index + 1 - |old(Contents())|)
      ensures forall j: nat :: j != index ==> Stored(value.entries, j) == old(value.Array? && Stored(value.entries, j))
    {
      if value.Null? { value := Array(Nil); }
      ghost var e := value.entries;
      ghost var was := Elements(e);
      assert was == old(Contents());
      if Find(value.entries, Index(index)).None? {
        PutFinds(e, index, Null);
        value := Array(Put(value.entries, Index(index), Null));
        if index < |was| {
          PutWithin(e, index, Null);
          assert was[index := Null] == was;
        } else {
          PutBeyond(e, index, Null);
          assert Nulls(index - |was|) + [Null] == Nulls(index + 1 - |was|);
          assert was + Nulls(index - |was|) + [Null] == was + (Nulls(index - |was|) + [Null]);
        }
      } else {
        StoredBelowSpan(e, index);
      }
    }

    /** `(*this)[size()] = value`.  When index 2^32 - 1 is stored the size wraps to 0 and the
        first element is overwritten instead. */
    method AppendValue(v: Value)
      requires Valid()
      modifies this
      ensures Valid()
      ensures Contents() == if |old(Contents())| < TWO_TO_THE_32 then old(Contents()) + [v] else old(Contents())[0 := v]
    {
      if value.Null? { value := Array(Nil); }
      assert Elements(value.entries) == old(Contents());
      var size := Size();
      WrappedSize(value.entries);
      AppendMeaning(value.entries, size, v);
      value := Array(Put(value.entries, Index(size), v));
    }

    /** The erasing loop of resize. */
    method EraseFrom(from: nat, to: nat)
      requires Valid() && value.Array? && from <= to && |Contents()| <= to
      modifies this
      ensures Valid() && value.Array?
      ensures forall j: nat :: Find(value.entries, Index(j)) == if j < from then Find(old(value).entries, Index(j)) else None
    {
      hide Find, Span, Put, Erase, Sorted, IndexKeys;
      ghost var e := value.entries;
      forall j: nat | to <= j ensures Find(e, Index(j)) == None { StoredBelowSpan(e, j); }
      var index := from;
      while index < to
        invariant from <= index <= to
        invariant Valid() && value.Array?
        invariant forall j: nat :: Find(value.entries, Index(j)) == if from <= j < index then None else Find(e, Index(j))
      {
        EraseFinds(value.entries, index);
        value := Array(Erase(value.entries, Index(index)));
        index := index + 1;
      }
    }

    /** resize.  Growing pads with null; shrinking truncates, and its closing assertion fails
        exactly when the new last element is a gap.  When index 2^32 - 1 is stored the size wraps
        to 0, and only a resize to 0 changes anything. */
    method Resize(newSize: nat) returns (s: Status)
      requires Valid() && newSize < TWO_TO_THE_32
      modifies this
      ensures Valid()
      ensures |old(Contents())| == TWO_TO_THE_32 ==>
        s == Ok && Contents() == if newSize == 0 then [] else old(Contents())
      ensures newSize >= |old(Contents())| ==>
        s == Ok && Contents() == old(Contents()) + Nulls(newSize - |old(Contents())|)
      ensures newSize < |old(Contents())| < TWO_TO_THE_32 ==>
        (s == Ok <==> newSize == 0 || old(Stored(value.entries, newSize - 1)))
      ensures newSize < |old(Contents())| < TWO_TO_THE_32 && s == Ok ==> Contents() == old(Contents())[..newSize]
    {
      if value.Null? { value := Array(Nil); }
      StoredBelowSpan(value.entries, 0);
      assert Contents() == old(Contents());
      var oldSize := Size();
      s := Ok;
      if newSize == 0 {
        value := Array(Nil);
      } else if newSize > oldSize {
        Subscript(newSize - 1);
      } else {
        s := Shrink(newSize, oldSize);
        assert old(Contents()) + Nulls(0) == old(Contents());
      }
    }

    method Shrink(newSize: nat, oldSize: nat) returns (s: Status)
      requires Valid() && value.Array? && 0 < newSize <= oldSize == |Contents()| < TWO_TO_THE_32
      modifies this
      ensures Valid()
      ensures s == Ok <==> old(Stored(value.entries, newSize - 1))
      ensures s == Ok ==> Contents() == old(Contents())[..newSize]
      ensures newSize == oldSize ==> s == Ok
    {
      hide Find, Span, Put, Erase, Sorted, IndexKeys;
      ghost var e := value.entries;
      StoredBelowSpan(e, 0);
      EraseFrom(newSize, oldSize);
      ghost var e1 := value.entries;
      Truncated(e, e1, newSize);
      var size := Size();
      s := if size == newSize then Ok else AssertionFailed;
    }

    /** removeIndex on something else than an array, or of an index that is not stored, changes nothing.
        `oldSize - 1` is the last index even where the size has wrapped to 0. */
    method RemoveIndex(index: nat) returns (ok: bool, removed: Value)
      requires Sound()
      modifies this
      ensures Sound() && ok == old(value.Array? && Stored(value.entries, index))
      ensures !ok ==> value == old(value)
      ensures ok ==> index < |old(Contents())| && removed == old(Contents())[index]
      ensures ok && old(RemovesOne(value.entries, index)) ==> Contents() == RemoveAt(old(Contents()), index)
      ensures ok && !old(RemovesOne(value.entries, index)) ==> LostWithGap(old(Contents()), Contents())
    {
      hide Find, Span, Put, Erase, Sorted, IndexKeys, MovedLeft, Shifted;
      if !value.Array? { return false, Null; }
      var found := Find(value.entries, Index(index));
      if found.None? { return false, Null; }
      ghost var e := value.entries;
      StoredBelowSpan(e, index);
      removed := found.value;
      var oldSize := Size();
      var last := (oldSize - 1) % TWO_TO_THE_32;
      LastIndex(e, index, oldSize);
      ShiftLeft(index, last);
      EraseLast(e, value.entries, index);
      value := Array(Erase(value.entries, Index(last)));
      RemovalExact(e, value.entries, index);
      ok := true;
    }

    /** The loop of removeIndex: element i takes the value of element i + 1, which operator[]
        creates if it is missing. */
    method ShiftLeft(index: nat, last: nat)
      requires Valid() && value.Array? && Stored(value.entries, index) && index <= last == |Contents()| - 1
      modifies this
      ensures Valid() && value.Array?
      ensures MovedLeft(old(value).entries, value.entries, index)
    {
      hide Find, Span, Put, Erase, Sorted, IndexKeys;
      ghost var e := value.entries;
      StoredBelowSpan(e, 0);
      assert MovedUpTo(e, e, index, index) by { NothingMoved(e, index); }
      hide MovedUpTo, MovedLeft, Wf;
      var i := index;
      while i < last
        invariant index <= i <= last
        invariant Valid() && value.Array? && MovedUpTo(e, value.entries, index, i)
      {
        MoveStep(e, value.entries, index, i);
        var next := At(value.entries, i + 1);
        value := Array(Put(value.entries, Index(i + 1), next));
        value := Array(Put(value.entries, Index(i), next));
        i := i + 1;
      }
      AllMoved(e, value.entries, index);
    }
  }
}
