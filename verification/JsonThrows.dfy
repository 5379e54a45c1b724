/** When parse throws: never on a document of ordinary size whose brackets fit the stack limit. */
module JsonThrows {
  import opened JsonValue
  import opened JsonNumber
  import opened JsonString
  import opened JsonScanner
  import opened JsonParser
  import opened JsonLexemes
  import opened JsonAcceptance
  import R = JsonRun

  /** The opening brackets from `p` on, those in strings and comments included. */
  function Opens(doc: string, p: nat): nat
    requires p <= |doc|
    decreases |doc| - p
  {
    if p == |doc| then 0 else (if doc[p] in "[{" then 1 else 0) + Opens(doc, p + 1)
  }

  lemma {:induction false} OpensBetween(doc: string, p: nat, q: nat)
    requires p <= q <= |doc|
    ensures Opens(doc, q) <= Opens(doc, p)
    ensures (exists s :: p <= s < q && doc[s] in "[{") ==> Opens(doc, q) < Opens(doc, p)
    decreases q - p
  {
    if p < q { OpensBetween(doc, p + 1, q); }
  }

  /** Decoding never makes a string longer. */
  lemma {:induction false} DecodedLength(doc: string, p: nat, end: nat)
    requires p <= end <= |doc|
    ensures DecodeChars(doc, p, end).Decoded? ==> |DecodeChars(doc, p, end).text| <= end - p
    decreases end - p
  {
    hide EscapedCodePoint, SimpleEscape, Utf8;
    if p < end && doc[p] != QUOTE {
      if doc[p] != BACKSLASH {
        DecodedLength(doc, p + 1, end);
      } else if p + 1 < end {
        if doc[p + 1] == 'u' {
          var e := EscapedCodePoint(doc, p + 2, end);
          EscapeTakesSix(doc, p + 2, end);
          if e.Escape? { DecodedLength(doc, e.next, end); }
        } else {
          DecodedLength(doc, p + 2, end);
        }
      }
    }
  }

  lemma EscapeTakesSix(doc: string, p: nat, end: nat)
    requires p <= end <= |doc|
    ensures var e := EscapedCodePoint(doc, p, end); e.Escape? ==> p + 4 <= e.next <= end && |Utf8(e.code)| <= 4
  {
    hide EscapeSequence;
  }

  /** The brackets ahead fit the limit, and no length can reach one of the others. */
  predicate Fits(f: Features, doc: string, st: State) {
    && st.cur <= |doc| < NAME_LIMIT && !f.allowNumericKeys
    && st.depth + Opens(doc, st.cur) < f.stackLimit
  }

  lemma FitsOnward(f: Features, doc: string, st: State, q: State)
    requires Fits(f, doc, st) && st.cur <= q.cur <= |doc|
    requires q.depth == st.depth || (q.depth == st.depth + 1 && exists s :: st.cur <= s < q.cur && doc[s] in "[{")
    ensures Fits(f, doc, q)
  {
    OpensBetween(doc, st.cur, q.cur);
  }

  lemma {:induction false} ValueReturns(f: Features, doc: string, st: State, prior: Value)
    requires Fits(f, doc, st)
    ensures ReadValue(f, doc, st, prior).Done?
    decreases |doc| - st.cur, 0
  {
    hide ReadValue, NextToken, ReadToken, ReadMembers, ReadArray, ReadScalar, StartsScalar, KindOf, Fits, AddError;
    FitsBounds(f, doc, st);
    ValueByToken(f, doc, st, prior);
    var t := NextToken(f, doc, st.cur);
    var st1 := st.(cur := t.end, depth := st.depth + 1);
    var cs, q := LeadingSound(f, doc, st.cur);
    TokenMeaning(f, doc, q);
    MarkKinds(f, TokenText(doc, t));
    if t.kind == ObjectBegin || t.kind == ArrayBegin {
      assert doc[t.start] in "[{" by { assert doc[t.start] == TokenText(doc, t)[0]; }
      FitsOnward(f, doc, st, st1);
      if t.kind == ObjectBegin { MembersReturn(f, doc, st1, Nil, []); } else { ArrayReturns(f, doc, st1); }
    } else if StartsScalar(f, t.kind) {
      assert t.kind == StringToken ==> t.start + 2 <= t.end by { TokenShape(f, doc, q); }
      ScalarReturns(f, doc, t, st1, prior);
    }
  }

  lemma TokenShape(f: Features, doc: string, p: nat)
    requires p <= |doc|
    ensures Shaped(ReadToken(f, doc, p))
  {
  }

  lemma FitsBounds(f: Features, doc: string, st: State)
    requires Fits(f, doc, st)
    ensures st.cur <= |doc| < NAME_LIMIT && st.depth < f.stackLimit && !f.allowNumericKeys
  {
  }

  lemma ScalarReturns(f: Features, doc: string, t: Token, st: State, prior: Value)
    requires t.start <= t.end <= |doc| < NAME_LIMIT && (t.kind == StringToken ==> t.start + 2 <= t.end) && StartsScalar(f, t.kind)
    ensures ReadScalar(f, doc, t, st, prior).Done?
  {
    hide DecodeChars;
    if t.kind == StringToken { DecodedLength(doc, t.start + 1, t.end - 1); }
  }

  lemma {:induction false} MembersReturn(f: Features, doc: string, st: State, e: Entries, name: string)
    requires Fits(f, doc, st)
    ensures ReadMembers(f, doc, st, e, name).Done?
    decreases |doc| - st.cur, 1
  {
    hide ReadMembers, ReadNamed, ReadToken, SkipComments, DecodeChars, Fits, AddError, Recover;
    FitsBounds(f, doc, st);
    MembersByToken(f, doc, st, e, name);
    var t := SkipComments(f, doc, ReadToken(f, doc, st.cur));
    var st1 := st.(cur := t.end);
    if !(t.kind == ObjectEnd && name == []) && IsName(f, t) {
      DecodedLength(doc, t.start + 1, t.end - 1);
      var n := NameOf(f, doc, t);
      FitsOnward(f, doc, st, st1);
      if n.MemberName? { NamedReturns(f, doc, st1, e, t, n.name); }
    }
  }

  lemma {:induction false} NamedReturns(f: Features, doc: string, st: State, e: Entries, t: Token, name: string)
    requires Fits(f, doc, st) && |name| < NAME_LIMIT
    ensures ReadNamed(f, doc, st, e, t, name).Done?
    decreases |doc| - st.cur, 1
  {
    hide ReadToken, ReadValue, MemberEnd, Recover, Find, Put, Resolve, StoredName, Fits, AddError;
    FitsBounds(f, doc, st);
    var colon := ReadToken(f, doc, st.cur);
    if colon.kind == MemberSeparator {
      var st1 := st.(cur := colon.end);
      var prior := Resolve(e, StoredName(name));
      FitsOnward(f, doc, st, st1);
      ValueReturns(f, doc, st1, prior);
      R.ReadValueOrderly(f, doc, st1, prior);
      var r := ReadValue(f, doc, st1, prior);
      if r.ok {
        FitsOnward(f, doc, st1, r.st);
        MemberEndReturns(f, doc, r.st, Put(e, StoredName(name), r.value), name);
      }
    }
  }

  lemma {:induction false} MemberEndReturns(f: Features, doc: string, st: State, e: Entries, name: string)
    requires Fits(f, doc, st)
    ensures MemberEnd(f, doc, st, e, name).Done?
    decreases |doc| - st.cur, 2
  {
    hide ReadToken, SkipComments, ReadMembers, Recover, Fits, AddError;
    FitsBounds(f, doc, st);
    var comma := ReadToken(f, doc, st.cur);
    if comma.kind in {ArraySeparator, CommentToken} {
      var t := SkipComments(f, doc, comma);
      FitsOnward(f, doc, st, st.(cur := t.end));
      MembersReturn(f, doc, st.(cur := t.end), e, name);
    }
  }

  lemma {:induction false} ArrayReturns(f: Features, doc: string, st: State)
    requires Fits(f, doc, st)
    ensures ReadArray(f, doc, st).Done?
    decreases |doc| - st.cur, 2
  {
    hide ReadToken, SkipSpaces, ReadElements, Fits;
    FitsBounds(f, doc, st);
    var st1 := st.(cur := SkipSpaces(doc, st.cur));
    FitsOnward(f, doc, st, st1);
    ElementsReturn(f, doc, st1, Nil, 0);
  }

  /** Every element but the first has a comma in front of it, so there are fewer than characters. */
  lemma {:induction false} ElementsReturn(f: Features, doc: string, st: State, e: Entries, index: nat)
    requires Fits(f, doc, st) && index <= st.cur
    ensures ReadElements(f, doc, st, e, index).Done?
    decreases |doc| - st.cur, 1
  {
    hide ReadElements, ReadToken, SkipComments, ReadValue, Recover, Find, Put, Resolve, Fits, AddError;
    FitsBounds(f, doc, st);
    ElementsByToken(f, doc, st, e, index);
    var prior := Resolve(e, Index(index));
    ValueReturns(f, doc, st, prior);
    R.ReadValueOrderly(f, doc, st, prior);
    var r := ReadValue(f, doc, st, prior);
    if r.ok {
      var t := SkipComments(f, doc, ReadToken(f, doc, r.st.cur));
      if t.kind == ArraySeparator {
        var st1 := r.st.(cur := t.end);
        FitsOnward(f, doc, st, st1);
        ElementsReturn(f, doc, st1, Put(e, Index(index), r.value), index + 1);
      }
    }
  }

  /** A document shorter than 2^30 bytes with fewer opening brackets than the stack limit never makes
      parse throw, whatever else is wrong with it, unless numbers may be names. */
  lemma NeverThrows(f: Features, doc: string, root: Value)
    requires |doc| < 0x4000_0000 && !f.allowNumericKeys && Opens(doc, 0) < f.stackLimit
    ensures Parse(f, doc, root).Done?
  {
    hide ReadValue, NextToken, Opens;
    ValueReturns(f, doc, State(0, 0, []), root);
  }
}
