/** FastWriter with dropNullPlaceholders: exactly which trees come back.

    Null is written as nothing, so an array of one null looks empty, and a null root leaves no
    text.  A reader that allows dropped nulls rebuilds every other tree; one that does not
    rebuilds the trees without null. */
module JsonDroppedNulls {
  import opened JsonValue
  import opened JsonNumber
  import opened JsonString
  import opened JsonScanner
  import opened JsonParser
  import opened JsonFastWriter
  import opened JsonRoundTrip

  // ----- what such text cannot tell apart -------------------------------------------------------

  /** The tree with every array of one null made empty. */
  function Collapse(v: Value): Value {
    match v
    case Array(e) => if LoneNull(e) then Array(Nil) else Array(CollapseAll(e))
    case Object(e) => Object(CollapseAll(e))
    case _ => v
  }

  function CollapseAll(e: Entries): Entries {
    if e.Nil? then Nil else Entry(e.key, Collapse(e.value), CollapseAll(e.rest))
  }

  lemma {:induction false} CollapsedFind(e: Entries, k: Key)
    ensures Find(CollapseAll(e), k) == if Find(e, k).Some? then Some(Collapse(Find(e, k).value)) else None
  {
    if e.Entry? { CollapsedFind(e.rest, k); }
  }

  lemma {:induction false} CollapsedAbove(k: Key, e: Entries)
    ensures AllAbove(k, CollapseAll(e)) == AllAbove(k, e)
  {
    if e.Entry? { CollapsedAbove(k, e.rest); }
  }

  lemma {:induction false} CollapsedShape(e: Entries)
    ensures Span(CollapseAll(e)) == Span(e) && CollapseAll(e).Nil? == e.Nil?
    ensures Sorted(CollapseAll(e)) == Sorted(e)
    ensures IndexKeys(CollapseAll(e)) == IndexKeys(e) && NameKeys(CollapseAll(e)) == NameKeys(e)
  {
    if e.Entry? {
      CollapsedAbove(e.key, e.rest);
      CollapsedShape(e.rest);
    }
  }

  lemma CollapsedAt(e: Entries, i: nat)
    ensures At(CollapseAll(e), i) == Collapse(At(e, i))
    ensures At(CollapseAll(e), i) == Null <==> At(e, i) == Null
  {
    CollapsedFind(e, Index(i));
  }

  lemma CollapsedLone(e: Entries)
    ensures LoneNull(CollapseAll(e)) == LoneNull(e) && ArraySize(CollapseAll(e)) == ArraySize(e)
  {
    CollapsedShape(e);
    CollapsedAt(e, 0);
  }

  /** Collapsing does not change the text. */
  lemma {:induction false} CollapseText(o: Options, v: Value)
    requires o.dropNullPlaceholders
    ensures FastText(o, Collapse(v)) == FastText(o, v)
    decreases Weight(v), 0, 0
  {
    hide Find;
    match v {
      case Array(e) =>
        if LoneNull(e) {
          LoneText(o, e);
        } else {
          CollapsedLone(e);
          CollapseItems(o, e, 0, ArraySize(e));
        }
      case Object(e) => CollapseMembers(o, e, true);
      case _ =>
    }
  }

  lemma LoneText(o: Options, e: Entries)
    requires o.dropNullPlaceholders && LoneNull(e)
    ensures ItemsText(o, e, 0, ArraySize(e)) == "" == ItemsText(o, Nil, 0, ArraySize(Nil))
  {
    assert ItemsText(o, e, 1, 1) == "";
  }

  lemma {:induction false} CollapseItems(o: Options, e: Entries, i: nat, n: nat)
    requires o.dropNullPlaceholders
    ensures ItemsText(o, CollapseAll(e), i, n) == ItemsText(o, e, i, n)
    decreases EntriesWeight(e), 1, n - i
  {
    hide FastText, At;
    if i < n {
      CollapsedAt(e, i);
      CollapseText(o, At(e, i));
      CollapseItems(o, e, i + 1, n);
    }
  }

  lemma {:induction false} CollapseMembers(o: Options, e: Entries, first: bool)
    requires o.dropNullPlaceholders
    ensures MembersText(o, CollapseAll(e), first) == MembersText(o, e, first)
    decreases EntriesWeight(e), 1, 0
  {
    hide FastText;
    if e.Entry? {
      CollapseText(o, e.value);
      CollapseMembers(o, e.rest, false);
    }
  }

  lemma {:induction false} CollapseSurvives(v: Value)
    ensures Survives(true, Collapse(v))
    decreases Weight(v), 0, 0
  {
    match v {
      case Array(e) =>
        if !LoneNull(e) {
          CollapsedLone(e);
          CollapseItemsSurvive(e, 0, ArraySize(e));
        }
      case Object(e) => CollapseMembersSurvive(e);
      case _ =>
    }
  }

  lemma {:induction false} CollapseItemsSurvive(e: Entries, i: nat, n: nat)
    ensures ItemsSurvive(true, CollapseAll(e), i, n)
    decreases EntriesWeight(e), 1, n - i
  {
    hide Survives, At;
    if i < n {
      CollapsedAt(e, i);
      CollapseSurvives(At(e, i));
      CollapseItemsSurvive(e, i + 1, n);
    }
  }

  lemma {:induction false} CollapseMembersSurvive(e: Entries)
    ensures MembersSurvive(true, CollapseAll(e))
    decreases EntriesWeight(e), 1, 0
  {
    if e.Entry? {
      CollapseSurvives(e.value);
      CollapseMembersSurvive(e.rest);
    }
  }

  lemma {:induction false} CollapseWritable(v: Value)
    requires Writable(v)
    ensures Writable(Collapse(v)) && Nesting(Collapse(v)) <= Nesting(v)
    decreases v
  {
    match v {
      case Array(e) =>
        CollapsedShape(e);
        CollapseAllWritable(e);
      case Object(e) =>
        CollapsedShape(e);
        CollapseAllWritable(e);
      case _ =>
    }
  }

  lemma {:induction false} CollapseAllWritable(e: Entries)
    requires EntriesWellFormed(e) && EntriesReadable(e)
    ensures EntriesWellFormed(CollapseAll(e)) && EntriesReadable(CollapseAll(e))
    ensures EntriesNesting(CollapseAll(e)) <= EntriesNesting(e)
    decreases e
  {
    if e.Entry? {
      CollapseWritable(e.value);
      CollapseAllWritable(e.rest);
    }
  }

  /** If collapsing keeps the normal form, there was nothing to collapse. */
  lemma {:induction false} CollapseShows(v: Value)
    requires Normalize(Collapse(v)) == Normalize(v)
    ensures Survives(true, v)
    decreases Weight(v), 0, 0
  {
    match v {
      case Array(e) =>
        if LoneNull(e) {
          LoneIsNotEmpty(e);
        } else {
          CollapsedLone(e);
          CollapseItemsShow(e, 0, ArraySize(e));
        }
      case Object(e) => CollapseMembersShow(e);
      case _ =>
    }
  }

  lemma LoneIsNotEmpty(e: Entries)
    requires LoneNull(e)
    ensures Normalize(Array(e)) != Normalize(Array(Nil))
  {
    hide Normalize;
    NormalOfOne(e);
    NormalOfNone();
  }

  lemma NormalOfOne(e: Entries)
    requires ArraySize(e) == 1
    ensures Normalize(Array(e)).Array? && Normalize(Array(e)).entries.Entry?
  {
    hide ArraySize, At;
  }

  lemma NormalOfNone()
    ensures Normalize(Array(Nil)) == Array(Nil)
  {
  }

  lemma {:induction false} CollapseItemsShow(e: Entries, i: nat, n: nat)
    requires Dense(CollapseAll(e), i, n) == Dense(e, i, n)
    ensures ItemsSurvive(true, e, i, n)
    decreases EntriesWeight(e), 1, n - i
  {
    hide Normalize, Survives, At;
    if i < n {
      CollapsedAt(e, i);
      CollapseShows(At(e, i));
      CollapseItemsShow(e, i + 1, n);
    }
  }

  lemma {:induction false} CollapseMembersShow(e: Entries)
    requires NormalizeMembers(CollapseAll(e)) == NormalizeMembers(e)
    ensures MembersSurvive(true, e)
    decreases EntriesWeight(e), 1, 0
  {
    if e.Entry? {
      CollapseShows(e.value);
      CollapseMembersShow(e.rest);
    }
  }

  // ----- readers that do not allow dropped nulls ------------------------------------------------

  ghost predicate Fails(r: Outcome) { r.Done? ==> !r.ok }

  /** A null for which nothing was written makes such a reader report an error, however deep it is. */
  lemma {:induction false} ReadFails(f: Features, o: Options, doc: string, st: State, prior: Value, v: Value)
    requires o.dropNullPlaceholders && !f.allowDroppedNullPlaceholders
    requires Writable(v) && Survives(true, v) && !Survives(false, v)
    requires TextAt(doc, st.cur, FastText(o, v)) && (v.Null? ==> Closer(CharAt(doc, st.cur)))
    ensures Fails(ReadValue(f, doc, st, prior))
    decreases Weight(v), 2, 0
  {
    if v.Null? {
      NothingFails(f, doc, st, prior);
    } else if v.Array? {
      ArrayFails(f, o, doc, st, prior, v.entries);
    } else {
      ObjectFails(f, o, doc, st, prior, v.entries);
    }
  }

  lemma NothingFails(f: Features, doc: string, st: State, prior: Value)
    requires !f.allowDroppedNullPlaceholders && st.cur <= |doc| && Closer(CharAt(doc, st.cur))
    ensures Fails(ReadValue(f, doc, st, prior))
  {
    hide NextToken;
    assert doc[st.cur..st.cur + 1] == [doc[st.cur]];
    PunctuationHere(f, doc, st.cur, doc[st.cur]);
  }

  lemma {:induction false} ArrayFails(f: Features, o: Options, doc: string, st: State, prior: Value, e: Entries)
    requires o.dropNullPlaceholders && !f.allowDroppedNullPlaceholders
    requires Writable(Array(e)) && Survives(true, Array(e)) && !Survives(false, Array(e))
    requires TextAt(doc, st.cur, FastText(o, Array(e)))
    ensures Fails(ReadValue(f, doc, st, prior))
    decreases Weight(Array(e)), 1, 0
  {
    hide ReadValue, ReadArray, ReadElements, ItemsText, FastText, NextToken, TextAt;
    hide ArraySize, Span, At, Find, Survives, ItemsSurvive, WellFormed, EntriesWellFormed, Readable, EntriesReadable;
    var n := ArraySize(e);
    NullInside(o, e);
    SplitThree(doc, st.cur, "[", ItemsText(o, e, 0, n), "]");
    OpenBracket(f, doc, st, prior);
    var inner := st.(cur := st.cur + 1, depth := st.depth + 1);
    FirstItem(o, e, n);
    ArrayStarts(f, o, doc, inner, e, n);
    ItemsFail(f, o, doc, inner, Nil, e, 0, n);
  }

  lemma NullInside(o: Options, e: Entries)
    requires Writable(Array(e)) && Survives(true, Array(e)) && !Survives(false, Array(e))
    ensures var n := ArraySize(e);
      && 0 < n == Span(e) <= MAX_INT + 1
      && (n == 1 ==> !At(e, 0).Null?)
      && ItemsSurvive(true, e, 0, n) && !ItemsSurvive(false, e, 0, n)
      && EntriesWellFormed(e) && EntriesReadable(e)
      && FastText(o, Array(e)) == "[" + ItemsText(o, e, 0, n) + "]"
      && EntriesWeight(e) < Weight(Array(e))
  {
    SmallSize(e);
  }

  lemma {:induction false} ItemsFail(f: Features, o: Options, doc: string, st: State, acc: Entries, e: Entries, i: nat, n: nat)
    requires o.dropNullPlaceholders && !f.allowDroppedNullPlaceholders
    requires EntriesWellFormed(e) && EntriesReadable(e) && ItemsSurvive(true, e, i, n) && !ItemsSurvive(false, e, i, n)
    requires i < n <= Span(e) <= MAX_INT + 1
    requires TextAt(doc, st.cur, FastText(o, At(e, i)) + ItemsText(o, e, i + 1, n) + "]")
    ensures Fails(ReadElements(f, doc, st, acc, i))
    decreases EntriesWeight(e), 3, n - i
  {
    hide ReadValue, ReadElements, FastText, ItemsText, Normalize, ReadToken;
    hide Put, At, TextAt, Delimiter, CharAt, WellFormed, EntriesWellFormed, Readable, EntriesReadable, Span, Nesting, Find;
    hide Survives, Closer;
    var item := At(e, i);
    var text := FastText(o, item);
    var q := st.cur + |text|;
    var prior := Resolve(acc, Index(i));
    SplitThree(doc, st.cur, text, ItemsText(o, e, i + 1, n), "]");
    ElementFacts(e, i);
    BehindItem(f, o, doc, q, e, i, n);
    if item.Null? { NullIsOmitted(o); }
    StepElement(f, doc, st, acc, i, ReadValue(f, doc, st, prior));
    if Survives(false, item) {
      ReadBack(f, o, doc, st, prior, item);
      if i + 1 < n {
        ItemsFail(f, o, doc, st.(cur := q + 1), Put(acc, Index(i), Normalize(item)), e, i + 1, n);
      }
    } else {
      ReadFails(f, o, doc, st, prior, item);
      ElementFails(f, doc, st, acc, i);
    }
  }

  lemma ElementFails(f: Features, doc: string, st: State, acc: Entries, i: nat)
    requires st.cur <= |doc| && Fails(ReadValue(f, doc, st, Resolve(acc, Index(i))))
    ensures Fails(ReadElements(f, doc, st, acc, i))
  {
    hide ReadValue, ReadToken, SkipComments, Recover;
    ElementsByToken(f, doc, st, acc, i);
  }

  lemma {:induction false} ObjectFails(f: Features, o: Options, doc: string, st: State, prior: Value, e: Entries)
    requires o.dropNullPlaceholders && !f.allowDroppedNullPlaceholders
    requires Writable(Object(e)) && Survives(true, Object(e)) && !Survives(false, Object(e))
    requires TextAt(doc, st.cur, FastText(o, Object(e)))
    ensures Fails(ReadValue(f, doc, st, prior))
    decreases Weight(Object(e)), 1, 0
  {
    hide ReadValue, ReadMembers, MembersText, PunctuationType, NextToken;
    SplitThree(doc, st.cur, "{", MembersText(o, e, true), "}");
    OpenBrace(f, doc, st, prior);
    FirstMember(o, e);
    MembersFail(f, o, doc, st.(cur := st.cur + 1, depth := st.depth + 1), Nil, e, []);
  }

  lemma {:induction false} MembersFail(f: Features, o: Options, doc: string, st: State, acc: Entries, e: Entries, last: string)
    requires o.dropNullPlaceholders && !f.allowDroppedNullPlaceholders
    requires e.Entry? && EntriesWellFormed(e) && EntriesReadable(e) && NameKeys(e) && Sorted(e) && AllBelow(acc, e.key)
    requires MembersSurvive(true, e) && !MembersSurvive(false, e)
    requires TextAt(doc, st.cur, MemberAndRest(o, e) + "}")
    ensures Fails(ReadMembers(f, doc, st, acc, last))
    decreases EntriesWeight(e), 4, 0
  {
    hide ReadValue, ReadMembers, MemberEnd, FastText, MembersText, Normalize, ReadToken, DecodeString;
    hide Quoted, Colon, Put, TextAt, Delimiter, CharAt, WellFormed, Readable, AllBelow, Nesting, Find;
    hide Survives, Closer;
    var name, value := e.key.name, FastText(o, e.value);
    var pc := st.cur + |Quoted(name)|;
    var q := pc + |Colon(o)| + |value|;
    MemberTexts(f, o, doc, st.cur, e);
    if e.value.Null? { NullIsOmitted(o); }
    AllBelowMisses(acc, e.key);
    var behind := st.(cur := pc + 1);
    var r := ReadValue(f, doc, behind, Null);
    StepMember(f, doc, st, acc, last, Token(StringToken, st.cur, pc), name, r);
    if Survives(false, e.value) {
      ReadBackMember(f, o, doc, behind, e);
      var w := Normalize(e.value);
      PutAtEnd(acc, e.key, w);
      if r.Done? {
        var acc1 := Append(acc, Entry(e.key, w, Nil));
        StepMemberEnd(f, doc, st.(cur := q), acc1, name, ReadToken(f, doc, q));
        NextAbove(acc, e, w);
        MembersFail(f, o, doc, st.(cur := q + 1), acc1, e.rest, name);
      }
    } else {
      MemberValueFails(f, o, doc, behind, e);
      MemberFails(f, doc, st, acc, last, Token(StringToken, st.cur, pc), name);
    }
  }

  lemma {:induction false} MemberValueFails(f: Features, o: Options, doc: string, st: State, e: Entries)
    requires o.dropNullPlaceholders && !f.allowDroppedNullPlaceholders
    requires e.Entry? && Writable(e.value) && Survives(true, e.value) && !Survives(false, e.value)
    requires st.cur < |doc| && (o.yamlCompatibility ==> doc[st.cur] == ' ')
    requires var p := st.cur + |Colon(o)| - 1;
      TextAt(doc, p, FastText(o, e.value)) && (e.value.Null? ==> Closer(CharAt(doc, p)))
    ensures Fails(ReadValue(f, doc, st, Null))
    decreases EntriesWeight(e), 3, 0
  {
    hide ReadValue, FastText, Survives;
    if o.yamlCompatibility { SpaceBeforeValue(f, doc, st, Null); }
    ReadFails(f, o, doc, st.(cur := st.cur + |Colon(o)| - 1), Null, e.value);
  }

  lemma MemberFails(f: Features, doc: string, st: State, e: Entries, last: string, t: Token, name: string)
    requires st.cur <= |doc| && t == ReadToken(f, doc, st.cur) && t.kind == StringToken
    requires DecodeString(doc, t) == Decoded(name) && |name| < NAME_LIMIT
    requires ReadToken(f, doc, t.end) == Token(MemberSeparator, t.end, t.end + 1)
    requires Find(e, Name(name)) == None
    requires Fails(ReadValue(f, doc, st.(cur := t.end + 1), Null))
    ensures Fails(ReadMembers(f, doc, st, e, last))
  {
    hide ReadValue, MemberEnd, DecodeString, Find, ReadToken, Recover;
    assert StoredName(name) == Name(name);
    assert ReadMembers(f, doc, st, e, last) == ReadNamed(f, doc, st.(cur := t.end), e, t, name);
  }

  // ----- the exact round trip -------------------------------------------------------------------

  /** Where there is nothing to collapse, collapsing removes no null. */
  lemma {:induction false} NullsStay(v: Value)
    requires Survives(true, v) && Survives(false, Collapse(v))
    ensures Survives(false, v)
    decreases Weight(v), 0, 0
  {
    match v {
      case Array(e) =>
        CollapsedLone(e);
        NullsStayInItems(e, 0, ArraySize(e));
      case Object(e) => NullsStayInMembers(e);
      case _ =>
    }
  }

  lemma {:induction false} NullsStayInItems(e: Entries, i: nat, n: nat)
    requires ItemsSurvive(true, e, i, n) && ItemsSurvive(false, CollapseAll(e), i, n)
    ensures ItemsSurvive(false, e, i, n)
    decreases EntriesWeight(e), 1, n - i
  {
    hide Survives, At;
    if i < n {
      CollapsedAt(e, i);
      NullsStay(At(e, i));
      NullsStayInItems(e, i + 1, n);
    }
  }

  lemma {:induction false} NullsStayInMembers(e: Entries)
    requires MembersSurvive(true, e) && MembersSurvive(false, CollapseAll(e))
    ensures MembersSurvive(false, e)
    decreases EntriesWeight(e), 1, 0
  {
    if e.Entry? {
      NullsStay(e.value);
      NullsStayInMembers(e.rest);
    }
  }

  /** The text of a null root is empty, and no reader takes that for a value. */
  lemma NullRootFails(f: Features, o: Options, root: Value)
    requires o.dropNullPlaceholders
    ensures Fails(Parse(f, Written(o, Null), root))
  {
    hide ReadValue, Parse, NextToken;
    var text := Written(o, Null);
    assert text == "" || text == "\n" by { NullIsOmitted(o); }
    assert text[0..] == text;
    EndHere(f, text, 0);
    EndFails(f, text, root);
    ParseFails(f, text, root);
  }

  lemma EndFails(f: Features, doc: string, root: Value)
    requires NextToken(f, doc, 0).kind == EndOfStream
    ensures Fails(ReadValue(f, doc, State(0, 0, []), root))
  {
    hide NextToken, ReadMembers, ReadArray;
  }

  lemma ParseFails(f: Features, doc: string, root: Value)
    requires Fails(ReadValue(f, doc, State(0, 0, []), root))
    ensures Fails(Parse(f, doc, root))
  {
    hide ReadValue, NextToken;
  }

  /** What the readers make of the text of a tree other than null: if dropped nulls are allowed,
      or none is left after collapsing, the collapsed tree; otherwise no success. */
  lemma DroppedThenParse(f: Features, o: Options, v: Value, root: Value)
    requires o.dropNullPlaceholders && Writable(v) && !v.Null? && Nesting(v) <= f.stackLimit
    requires f.strictRoot ==> v.Array? || v.Object?
    ensures var text := Written(o, v);
      if Survives(f.allowDroppedNullPlaceholders, Collapse(v)) then
        Parse(f, text, root) == Done(true, State(|text|, 0, []), Normalize(Collapse(v)))
      else Fails(Parse(f, text, root))
  {
    hide Parse, FastText, Normalize, Survives, Nesting, WellFormed, Readable, ReadValue;
    var c := Collapse(v);
    CollapseText(o, v);
    CollapseWritable(v);
    CollapseSurvives(v);
    if Survives(f.allowDroppedNullPlaceholders, c) {
      WriteThenParse(f, o, c, root);
    } else {
      var text, body := Written(o, c), FastText(o, c);
      assert text[0..0 + |body|] == body;
      ReadFails(f, o, text, State(0, 0, []), root, c);
      ParseFails(f, text, root);
    }
  }

  /** The round trip with dropped nulls, exactly: the tree comes back if and only if it is not null
      itself, holds no array of one null and, where the reader does not allow dropped nulls, no
      null and no gap at all. */
  lemma DroppedNullsRoundTrip(f: Features, o: Options, v: Value, root: Value)
    requires o.dropNullPlaceholders && Writable(v) && Nesting(v) <= f.stackLimit
    requires f.strictRoot ==> v.Array? || v.Object?
    ensures var text := Written(o, v);
      Parse(f, text, root) == Done(true, State(|text|, 0, []), Normalize(v))
      <==> !v.Null? && Survives(f.allowDroppedNullPlaceholders, v)
  {
    hide Parse, FastText, Normalize, Survives, Nesting, WellFormed, Readable;
    if v.Null? {
      NullRootFails(f, o, root);
    } else if Survives(f.allowDroppedNullPlaceholders, v) {
      WriteThenParse(f, o, v, root);
    } else {
      DroppedThenParse(f, o, v, root);
      CollapseSurvives(v);
      if Normalize(Collapse(v)) == Normalize(v) {
        CollapseShows(v);
        if Survives(false, Collapse(v)) { NullsStay(v); }
      }
    }
  }
}
