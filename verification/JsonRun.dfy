/** What every run of a reader keeps, for every document and every feature set.

    Outcomes that are not exceptions grow the error list exactly when they fail, hand back the
    depth counter on success and at most one too high on failure, and build well-formed trees;
    successful ones build trees in the reader's normal form, no deeper than the limit. */
module JsonRun {
  import opened JsonValue
  import opened JsonNumber
  import opened JsonString
  import opened JsonScanner
  import opened JsonParser
  import opened JsonFastWriter
  import opened JsonRoundTrip

  // ----- errors and depth ------------------------------------------------------------------

  predicate Orderly(st: State, r: Outcome) {
    r.Done? ==>
      && st.errors <= r.st.errors
      && (r.ok ==> r.st.errors == st.errors && r.st.depth == st.depth)
      && (!r.ok ==> |st.errors| < |r.st.errors| && st.depth <= r.st.depth <= st.depth + 1)
  }

  lemma {:induction false} ReadValueOrderly(f: Features, doc: string, st: State, prior: Value)
    requires st.cur <= |doc|
    ensures Orderly(st, ReadValue(f, doc, st, prior))
    decreases |doc| - st.cur, 0
  {
    hide NextToken, ReadMembers, ReadArray, ReadScalar, StartsScalar;
    if st.depth < f.stackLimit {
      var t := NextToken(f, doc, st.cur);
      var st1 := st.(cur := t.end, depth := st.depth + 1);
      if t.kind == ObjectBegin {
        ReadMembersOrderly(f, doc, st1, Nil, []);
      } else if t.kind == ArrayBegin {
        ReadArrayOrderly(f, doc, st1);
      } else if StartsScalar(f, t.kind) {
        ScalarOrderly(f, doc, t, st1, prior);
      }
    }
  }

  lemma ScalarOrderly(f: Features, doc: string, t: Token, st: State, prior: Value)
    requires t.start <= t.end <= |doc| && (t.kind == StringToken ==> t.start + 2 <= t.end)
    requires StartsScalar(f, t.kind)
    ensures var r := ReadScalar(f, doc, t, st, prior);
      r.Done? ==>
        && r.st.depth == st.depth
        && st.errors <= r.st.errors
        && (r.ok ==> r.st.errors == st.errors)
        && (!r.ok ==> |st.errors| < |r.st.errors|)
  {
    hide DecodeString, DecodeNumber;
  }

  lemma {:induction false} ReadMembersOrderly(f: Features, doc: string, st: State, e: Entries, name: string)
    requires st.cur <= |doc|
    ensures Orderly(st, ReadMembers(f, doc, st, e, name))
    decreases |doc| - st.cur, 1
  {
    hide ReadToken, SkipComments, ReadNamed, NameOf, Recover, IsName;
    var t := SkipComments(f, doc, ReadToken(f, doc, st.cur));
    if IsName(f, t) {
      NameIsText(f, t);
      var n := NameOf(f, doc, t);
      if n.MemberName? { ReadNamedOrderly(f, doc, st.(cur := t.end), e, t, n.name); }
    }
  }

  lemma {:induction false} ReadNamedOrderly(f: Features, doc: string, st: State, e: Entries, t: Token, name: string)
    requires st.cur <= |doc|
    ensures Orderly(st, ReadNamed(f, doc, st, e, t, name))
    decreases |doc| - st.cur, 1
  {
    hide ReadToken, ReadValue, MemberEnd, Recover, Find, Put, StoredName;
    var colon := ReadToken(f, doc, st.cur);
    if colon.kind == MemberSeparator {
      var k := StoredName(name);
      var st1 := st.(cur := colon.end);
      ReadValueOrderly(f, doc, st1, Resolve(e, k));
      var r := ReadValue(f, doc, st1, Resolve(e, k));
      if r.Done? && r.ok { MemberEndOrderly(f, doc, r.st, Put(e, k, r.value), name); }
    }
  }

  lemma NameIsText(f: Features, t: Token)
    requires IsName(f, t)
    ensures t.kind == StringToken || t.kind == NumberToken
  {
  }

  lemma {:induction false} MemberEndOrderly(f: Features, doc: string, st: State, e: Entries, name: string)
    requires st.cur <= |doc|
    ensures Orderly(st, MemberEnd(f, doc, st, e, name))
    decreases |doc| - st.cur, 2
  {
    hide ReadToken, SkipComments, ReadMembers, Recover;
    var comma := ReadToken(f, doc, st.cur);
    if comma.kind in {ArraySeparator, CommentToken} {
      var t := SkipComments(f, doc, comma);
      ReadMembersOrderly(f, doc, st.(cur := t.end), e, name);
    }
  }

  lemma {:induction false} ReadArrayOrderly(f: Features, doc: string, st: State)
    requires st.cur <= |doc|
    ensures Orderly(st, ReadArray(f, doc, st))
    decreases |doc| - st.cur, 2
  {
    hide ReadToken, SkipSpaces, ReadElements;
    ReadElementsOrderly(f, doc, st.(cur := SkipSpaces(doc, st.cur)), Nil, 0);
  }

  lemma {:induction false} ReadElementsOrderly(f: Features, doc: string, st: State, e: Entries, index: nat)
    requires st.cur <= |doc|
    ensures Orderly(st, ReadElements(f, doc, st, e, index))
    decreases |doc| - st.cur, 1
  {
    hide ReadToken, SkipComments, ReadValue, Recover, Find, Put;
    if index <= MAX_INT {
      ReadValueOrderly(f, doc, st, Resolve(e, Index(index)));
      var r := ReadValue(f, doc, st, Resolve(e, Index(index)));
      if r.Done? && r.ok {
        var t := SkipComments(f, doc, ReadToken(f, doc, r.st.cur));
        if t.kind == ArraySeparator {
          ReadElementsOrderly(f, doc, r.st.(cur := t.end), Put(e, Index(index), r.value), index + 1);
        }
      }
    }
  }

  /** A parse that does not throw ends inside the document, returns true exactly when no error
      was recorded, and never leaves the depth counter above 1 (0 on success). */
  lemma ParseRun(f: Features, doc: string, root: Value)
    ensures var r := Parse(f, doc, root);
      r.Done? ==>
        && r.st.cur <= |doc|
        && (r.ok <==> r.st.errors == [])
        && 0 <= r.st.depth <= 1 <= f.stackLimit && (r.ok ==> r.st.depth == 0)
  {
    hide ReadValue, NextToken;
    var st := State(0, 0, []);
    ReadValueOrderly(f, doc, st, root);
    if ReadValue(f, doc, st, root).Done? { LimitIsPositive(f, doc, st, root); }
  }

  lemma LimitIsPositive(f: Features, doc: string, st: State, root: Value)
    requires st.cur <= |doc| && ReadValue(f, doc, st, root).Done?
    ensures st.depth < f.stackLimit
  {
  }

  // ----- the trees a reader builds -----------------------------------------------------------

  /** The keys of `e` are i, i + 1, and so on. */
  predicate Consecutive(e: Entries, i: nat) {
    e.Entry? ==> e.key == Index(i) && Consecutive(e.rest, i + 1)
  }

  /** What the reader produces: dense arrays, integers tagged by size, no null strings. */
  predicate Canonical(v: Value) {
    match v
    case Int(i) => MIN_INT64 <= i <= MAX_INT
    case UInt(u) => MAX_INT < u <= MAX_UINT64
    case NullString => false
    case String(s) => |s| <= MAX_STRING
    case Array(e) => Consecutive(e, 0) && Count(e) <= MAX_INT + 1 && EntriesCanonical(e)
    case Object(e) => NameKeys(e) && Sorted(e) && EntriesCanonical(e)
    case _ => true
  }

  predicate EntriesCanonical(e: Entries) {
    e.Entry? ==> Canonical(e.value) && EntriesCanonical(e.rest)
  }

  lemma {:induction false} ConsecutiveAbove(e: Entries, j: nat, i: nat)
    requires Consecutive(e, i) && j < i
    ensures AllAbove(Index(j), e)
    decreases e
  {
    if e.Entry? { ConsecutiveAbove(e.rest, j, i + 1); }
  }

  lemma {:induction false} ConsecutiveSorted(e: Entries, i: nat)
    requires Consecutive(e, i) && i + Count(e) <= TWO_TO_THE_32
    ensures Sorted(e) && IndexKeys(e)
    ensures e.Entry? ==> Span(e) == i + Count(e)
    decreases e
  {
    if e.Entry? {
      ConsecutiveSorted(e.rest, i + 1);
      ConsecutiveAbove(e.rest, i, i + 1);
    }
  }

  lemma {:induction false} ConsecutiveGrows(e: Entries, i: nat, v: Value)
    requires Consecutive(e, i)
    ensures AllBelow(e, Index(i + Count(e)))
    ensures var e1 := Append(e, Entry(Index(i + Count(e)), v, Nil));
      Consecutive(e1, i) && Count(e1) == Count(e) + 1
    decreases e
  {
    if e.Entry? { ConsecutiveGrows(e.rest, i + 1, v); }
  }

  lemma {:induction false} CanonicalIsWellFormed(v: Value)
    requires Canonical(v)
    ensures WellFormed(v)
    decreases v
  {
    if v.Array? {
      ConsecutiveSorted(v.entries, 0);
      CanonicalAreWellFormed(v.entries);
    } else if v.Object? {
      CanonicalAreWellFormed(v.entries);
    }
  }

  lemma {:induction false} CanonicalAreWellFormed(e: Entries)
    requires EntriesCanonical(e)
    ensures EntriesWellFormed(e)
    decreases e
  {
    if e.Entry? {
      CanonicalIsWellFormed(e.value);
      CanonicalAreWellFormed(e.rest);
    }
  }

  lemma {:induction false} PutKeepsCanonical(e: Entries, k: Key, v: Value)
    requires EntriesCanonical(e) && Canonical(v)
    ensures EntriesCanonical(Put(e, k, v))
  {
    if e.Entry? { PutKeepsCanonical(e.rest, k, v); }
  }

  lemma {:induction false} PutNesting(e: Entries, k: Key, v: Value)
    ensures EntriesNesting(Put(e, k, v)) <= Max(EntriesNesting(e), Nesting(v))
  {
    if e.Entry? { PutNesting(e.rest, k, v); }
  }

  /** Members read so far. */
  predicate GoodMembers(e: Entries) { NameKeys(e) && Sorted(e) && EntriesCanonical(e) }

  /** Elements read so far. */
  predicate GoodElements(e: Entries, index: nat) {
    Consecutive(e, 0) && Count(e) == index && EntriesCanonical(e)
  }

  lemma MemberStored(e: Entries, name: string, v: Value)
    requires GoodMembers(e) && WellFormed(v)
    ensures WellFormed(Object(Put(e, StoredName(name), v)))
    ensures Canonical(v) ==> GoodMembers(Put(e, StoredName(name), v))
  {
    var k := StoredName(name);
    CanonicalAreWellFormed(e);
    PutMeaning(e, k, v, k);
    PutKeepsWellFormed(e, k, v);
    if Canonical(v) { PutKeepsCanonical(e, k, v); }
  }

  lemma ElementStored(e: Entries, index: nat, v: Value)
    requires GoodElements(e, index) && index <= MAX_INT && WellFormed(v)
    ensures WellFormed(Array(Put(e, Index(index), v)))
    ensures Canonical(v) ==> GoodElements(Put(e, Index(index), v), index + 1)
  {
    var k := Index(index);
    CanonicalAreWellFormed(e);
    ConsecutiveSorted(e, 0);
    ConsecutiveGrows(e, 0, v);
    PutAtEnd(e, k, v);
    PutMeaning(e, k, v, k);
    PutKeepsWellFormed(e, k, v);
    if Canonical(v) { PutKeepsCanonical(e, k, v); }
  }

  lemma ResolvedIsWellFormed(e: Entries, k: Key)
    requires EntriesCanonical(e)
    ensures WellFormed(Resolve(e, k))
  {
    CanonicalAreWellFormed(e);
    FoundIsWellFormed(e, k);
  }

  /** The outcome holds a well-formed tree; on success a canonical one within the limit. */
  predicate BuildsWell(f: Features, depth: int, r: Outcome) {
    r.Done? ==> WellFormed(r.value) && (r.ok ==> Canonical(r.value) && depth + Nesting(r.value) <= f.stackLimit)
  }

  lemma {:induction false} ReadValueBuilds(f: Features, doc: string, st: State, prior: Value)
    requires st.cur <= |doc| && WellFormed(prior)
    ensures BuildsWell(f, st.depth, ReadValue(f, doc, st, prior))
    decreases |doc| - st.cur, 0
  {
    hide NextToken, ReadMembers, ReadArray, ReadScalar, StartsScalar;
    if st.depth < f.stackLimit {
      var t := NextToken(f, doc, st.cur);
      var st1 := st.(cur := t.end, depth := st.depth + 1);
      if t.kind == ObjectBegin {
        ReadMembersBuilds(f, doc, st1, Nil, []);
      } else if t.kind == ArrayBegin {
        ReadArrayBuilds(f, doc, st1);
      } else if StartsScalar(f, t.kind) {
        ScalarBuilds(f, doc, t, st1, prior);
      }
    }
  }

  lemma ScalarBuilds(f: Features, doc: string, t: Token, st: State, prior: Value)
    requires t.start <= t.end <= |doc| && (t.kind == StringToken ==> t.start + 2 <= t.end)
    requires StartsScalar(f, t.kind) && WellFormed(prior)
    ensures var r := ReadScalar(f, doc, t, st, prior);
      r.Done? ==> WellFormed(r.value) && (r.ok ==> Canonical(r.value) && Nesting(r.value) == 1)
  {
    hide DecodeString;
  }

  lemma {:induction false} ReadMembersBuilds(f: Features, doc: string, st: State, e: Entries, name: string)
    requires st.cur <= |doc| && GoodMembers(e) && st.depth + EntriesNesting(e) <= f.stackLimit
    ensures BuildsWell(f, st.depth - 1, ReadMembers(f, doc, st, e, name))
    decreases |doc| - st.cur, 1
  {
    hide ReadToken, SkipComments, ReadNamed, NameOf, Recover, IsName;
    hide NameKeys, Sorted, EntriesCanonical, EntriesNesting;
    CanonicalAreWellFormed(e);
    var t := SkipComments(f, doc, ReadToken(f, doc, st.cur));
    if IsName(f, t) {
      NameIsText(f, t);
      var n := NameOf(f, doc, t);
      if n.MemberName? { ReadNamedBuilds(f, doc, st.(cur := t.end), e, t, n.name); }
    }
  }

  lemma {:induction false} ReadNamedBuilds(f: Features, doc: string, st: State, e: Entries, t: Token, name: string)
    requires st.cur <= |doc| && GoodMembers(e) && st.depth + EntriesNesting(e) <= f.stackLimit
    ensures BuildsWell(f, st.depth - 1, ReadNamed(f, doc, st, e, t, name))
    decreases |doc| - st.cur, 1
  {
    hide ReadToken, ReadValue, MemberEnd, Recover, Find, Put, StoredName;
    hide NameKeys, Sorted, EntriesCanonical, EntriesNesting;
    CanonicalAreWellFormed(e);
    var colon := ReadToken(f, doc, st.cur);
    if colon.kind == MemberSeparator {
      var k := StoredName(name);
      var st1 := st.(cur := colon.end);
      ResolvedIsWellFormed(e, k);
      ReadValueBuilds(f, doc, st1, Resolve(e, k));
      ReadValueOrderly(f, doc, st1, Resolve(e, k));
      var r := ReadValue(f, doc, st1, Resolve(e, k));
      if r.Done? {
        MemberStored(e, name, r.value);
        PutNesting(e, k, r.value);
        if r.ok { MemberEndBuilds(f, doc, r.st, Put(e, k, r.value), name); }
      }
    }
  }

  lemma {:induction false} MemberEndBuilds(f: Features, doc: string, st: State, e: Entries, name: string)
    requires st.cur <= |doc| && GoodMembers(e) && st.depth + EntriesNesting(e) <= f.stackLimit
    ensures BuildsWell(f, st.depth - 1, MemberEnd(f, doc, st, e, name))
    decreases |doc| - st.cur, 2
  {
    hide ReadToken, SkipComments, ReadMembers, Recover, NameKeys, Sorted, EntriesCanonical, EntriesNesting;
    CanonicalAreWellFormed(e);
    var comma := ReadToken(f, doc, st.cur);
    if comma.kind in {ArraySeparator, CommentToken} {
      var t := SkipComments(f, doc, comma);
      ReadMembersBuilds(f, doc, st.(cur := t.end), e, name);
    }
  }

  lemma {:induction false} ReadArrayBuilds(f: Features, doc: string, st: State)
    requires st.cur <= |doc| && st.depth <= f.stackLimit
    ensures BuildsWell(f, st.depth - 1, ReadArray(f, doc, st))
    decreases |doc| - st.cur, 2
  {
    hide ReadToken, SkipSpaces, ReadElements;
    ReadElementsBuilds(f, doc, st.(cur := SkipSpaces(doc, st.cur)), Nil, 0);
  }

  lemma {:induction false} ReadElementsBuilds(f: Features, doc: string, st: State, e: Entries, index: nat)
    requires st.cur <= |doc| && GoodElements(e, index) && st.depth + EntriesNesting(e) <= f.stackLimit
    ensures BuildsWell(f, st.depth - 1, ReadElements(f, doc, st, e, index))
    decreases |doc| - st.cur, 1
  {
    hide ReadToken, SkipComments, ReadValue, Recover, Find, Put, Consecutive, EntriesCanonical, EntriesNesting;
    if index <= MAX_INT {
      var k := Index(index);
      ResolvedIsWellFormed(e, k);
      ReadValueBuilds(f, doc, st, Resolve(e, k));
      ReadValueOrderly(f, doc, st, Resolve(e, k));
      var r := ReadValue(f, doc, st, Resolve(e, k));
      if r.Done? {
        var e1 := Put(e, k, r.value);
        ElementStored(e, index, r.value);
        PutNesting(e, k, r.value);
        var t := SkipComments(f, doc, ReadToken(f, doc, r.st.cur));
        if r.ok && t.kind == ArraySeparator { ReadElementsBuilds(f, doc, r.st.(cur := t.end), e1, index + 1); }
      }
    }
  }

  /** Every parse into a well-formed root leaves a well-formed tree there; a successful one
      leaves a canonical tree that is no deeper than the limit. */
  lemma ParseBuilds(f: Features, doc: string, root: Value)
    requires WellFormed(root)
    ensures BuildsWell(f, 0, Parse(f, doc, root))
  {
    hide ReadValue, NextToken;
    ReadValueBuilds(f, doc, State(0, 0, []), root);
  }

  // ----- canonical trees are their own normal form -------------------------------------------

  lemma {:induction false} CanonicalIsNormal(v: Value)
    requires Canonical(v)
    ensures Normalize(v) == v
    ensures RealFree(v) ==> Readable(v)
    decreases v
  {
    hide Dense, NormalizeMembers, At;
    if v.Array? {
      var e := v.entries;
      ConsecutiveSorted(e, 0);
      assert ArraySize(e) == Count(e);
      CanonicalAreNormal(e);
      DenseOfConsecutive(e, e, 0);
    } else if v.Object? {
      CanonicalAreNormal(v.entries);
      NormalMembers(v.entries);
    }
  }

  predicate EntriesNormal(e: Entries) { e.Entry? ==> Normalize(e.value) == e.value && EntriesNormal(e.rest) }

  lemma {:induction false} CanonicalAreNormal(e: Entries)
    requires EntriesCanonical(e)
    ensures EntriesNormal(e)
    ensures EntriesRealFree(e) ==> EntriesReadable(e)
    decreases e
  {
    if e.Entry? {
      CanonicalIsNormal(e.value);
      CanonicalAreNormal(e.rest);
    }
  }

  lemma {:induction false} NormalMembers(e: Entries)
    requires EntriesNormal(e)
    ensures NormalizeMembers(e) == e
  {
    if e.Entry? { NormalMembers(e.rest); }
  }

  /** Element i of a consecutive map, seen from the whole map. */
  lemma {:induction false} DenseOfConsecutive(whole: Entries, e: Entries, i: nat)
    requires Consecutive(e, i) && EntriesNormal(e)
    requires forall j :: i <= j ==> At(whole, j) == At(e, j)
    ensures Dense(whole, i, i + Count(e)) == e
    decreases e
  {
    if e.Entry? {
      assert At(whole, i) == At(e, i) == e.value;
      assert forall j :: i + 1 <= j ==> At(e, j) == At(e.rest, j);
      DenseOfConsecutive(whole, e.rest, i + 1);
    }
  }

  /** Parsing is stable: the tree of any successfully parsed real-free document is rebuilt
      exactly, node for node, when it is written and parsed again. */
  lemma ParseWriteParse(f: Features, o: Options, doc: string, root: Value, again: Value)
    requires WellFormed(root)
    requires Parse(f, doc, root).Done? && Parse(f, doc, root).ok && RealFree(Parse(f, doc, root).value)
    requires Sent(f, o, Parse(f, doc, root).value) && !Omitted(o, Parse(f, doc, root).value)
    ensures var v := Parse(f, doc, root).value;
      Parse(f, Written(o, v), again) == Done(true, State(|Written(o, v)|, 0, []), v)
  {
    var v := Parse(f, doc, root).value;
    ParseBuilds(f, doc, root);
    CanonicalIsWellFormed(v);
    CanonicalIsNormal(v);
    StrictRootKept(f, doc, root);
    hide Parse;
    WriteThenParse(f, o, v, again);
  }

  lemma StrictRootKept(f: Features, doc: string, root: Value)
    requires Parse(f, doc, root).Done? && Parse(f, doc, root).ok
    ensures var v := Parse(f, doc, root).value; f.strictRoot ==> v.Array? || v.Object?
  {
  }

  /** The document "-" parses to zero, although it is not JSON. */
  lemma LoneMinusParses(f: Features, root: Value)
    requires 0 < f.stackLimit && !f.strictRoot
    ensures Parse(f, "-", root) == Done(true, State(1, 0, []), Int(0))
  {
    hide IntegerOf, Parse;
    var st := State(0, 0, []);
    assert NextToken(f, "-", 0) == Token(NumberToken, 0, 1) by { LoneMinusToken(f); }
    LoneMinus();
    assert "-"[0..1] == "-";
    StepNumber(f, "-", st, root, Token(NumberToken, 0, 1), Int(0));
    assert "-"[1..] == "";
    EndHere(f, "-", 1);
    ParseEnds(f, "-", root, st.(cur := 1), Int(0));
  }

  lemma LoneMinusToken(f: Features)
    ensures NextToken(f, "-", 0) == Token(NumberToken, 0, 1)
  {
    assert !StartsInfinity(f, "-", 1);
    assert NumberEnd("-", 1) == 1;
    TokenHere(f, "-", 0);
  }

  /** A parse whose value is followed by nothing. */
  lemma ParseEnds(f: Features, doc: string, root: Value, st: State, v: Value)
    requires ReadValue(f, doc, State(0, 0, []), root) == Done(true, st, v) && st.cur <= |doc|
    requires NextToken(f, doc, st.cur) == Token(EndOfStream, |doc|, |doc|) && !f.strictRoot
    ensures Parse(f, doc, root) == Done(true, st.(cur := |doc|), v)
  {
    hide ReadValue, NextToken;
  }
}
