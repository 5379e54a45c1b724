/** The readers accept exactly the documents of the grammar, and build what they mean. */
module JsonAcceptance {
  import opened JsonValue
  import opened JsonNumber
  import opened JsonString
  import opened JsonScanner
  import opened JsonParser
  import opened JsonEscapes
  import opened JsonLexemes
  import opened JsonGrammar
  import R = JsonRun
  import opened JsonTokenStream

  // ----- kinds and texts -----------------------------------------------------------------

  lemma MarkKinds(f: Features, x: string)
    ensures KindOf(f, x) == ObjectBegin <==> x == "{"
    ensures KindOf(f, x) == ObjectEnd <==> x == "}"
    ensures KindOf(f, x) == ArrayBegin <==> x == "["
    ensures KindOf(f, x) == ArrayEnd <==> x == "]"
    ensures KindOf(f, x) == ArraySeparator <==> x == ","
    ensures KindOf(f, x) == MemberSeparator <==> x == ":"
    ensures KindOf(f, x) == EndOfStream <==> x == "" || x == [NUL]
  {
    hide IsStringText, IsNumberText, IsCommentText;
  }

  /** Strings, numbers and comments are no literals and none of each other. */
  lemma ShapeKinds(f: Features, x: string)
    ensures KindOf(f, x) == StringToken <==> IsStringText(f, x)
    ensures KindOf(f, x) == NumberToken <==> IsNumberText(x)
    ensures KindOf(f, x) == CommentToken <==> IsCommentText(f, x)
  {
    hide Inside, IsBlockComment, IsLineComment, NumberParts;
    NumberFirst(x);
    if x == "-Infinity" { InfinityIsNoNumber(x); }
  }

  /** Which kinds are values by themselves. */
  lemma ScalarKinds(f: Features, x: string)
    ensures ScalarValue(f, x).Some? ==>
      KindOf(f, x) in {NullToken, TrueToken, FalseToken, NaNToken, PosInfToken, NegInfToken, StringToken, NumberToken}
    ensures Literal(KindOf(f, x)).Some? ==> ScalarValue(f, x) == Literal(KindOf(f, x))
    ensures KindOf(f, x) == StringToken ==>
      ScalarValue(f, x) == if StringValue(x).Some? && |StringValue(x).value| <= MAX_STRING then Some(String(StringValue(x).value)) else None
    ensures KindOf(f, x) == NumberToken ==> ScalarValue(f, x) == NumberValue(f, x)
  {
    hide IsStringText, IsNumberText, IsCommentText, NumberValue, StringValue;
    ShapeKinds(f, x);
  }

  /** A string token decodes to the value of its text. */
  lemma StringToText(f: Features, doc: string, t: Token)
    requires t.start + 2 <= t.end <= |doc|
    ensures Says(DecodeString(doc, t), StringValue(TokenText(doc, t)))
  {
    hide DecodeChars, Unescape;
    var x := TokenText(doc, t);
    InnerText(doc, t);
    DecodingIsUnescaping(doc, t.start + 1, t.end - 1);
  }

  lemma InnerText(doc: string, t: Token)
    requires t.start + 2 <= t.end <= |doc|
    ensures TokenText(doc, t)[1..|TokenText(doc, t)| - 1] == doc[t.start + 1..t.end - 1]
  {
    SliceOfSlice(doc, t.start, t.end - t.start, 1, t.end - t.start - 2);
  }

  // ----- comments ------------------------------------------------------------------------

  /** Skipping comments reads comments, and the token behind them is the next one. */
  lemma {:induction false} CommentsSound(f: Features, doc: string, p: nat) returns (cs: seq<string>, q: nat)
    requires p <= |doc|
    ensures q <= |doc| && Reads(f, doc, p, cs, q) && Comments(f, cs)
    ensures SkipComments(f, doc, ReadToken(f, doc, p)) == ReadToken(f, doc, q)
    ensures cs == [] ==> q == p
    ensures cs == [] <==> ReadToken(f, doc, p).kind != CommentToken
    decreases |doc| - p
  {
    hide ReadToken, SkipSpaces, IsCommentText, KindOf;
    var t := ReadToken(f, doc, p);
    var x := TokenText(doc, t);
    TokenMeaning(f, doc, p);
    ShapeKinds(f, x);
    if t.kind == CommentToken {
      var more;
      more, q := CommentsSound(f, doc, t.end);
      cs := [x] + more;
      ReadsOne(f, doc, p);
      ReadsAppend(f, doc, p, [x], t.end, more, q);
    } else {
      cs, q := [], p;
    }
  }

  lemma {:induction false} CommentsComplete(f: Features, doc: string, p: nat, cs: seq<string>, q: nat)
    requires p <= |doc| && q <= |doc| && Reads(f, doc, p, cs, q) && Comments(f, cs)
    requires ReadToken(f, doc, q).kind != CommentToken
    ensures SkipComments(f, doc, ReadToken(f, doc, p)) == ReadToken(f, doc, q)
    decreases |cs|
  {
    hide ReadToken, SkipSpaces, IsCommentText, KindOf;
    if cs == [] {
      SameSpaces(f, doc, p, q);
    } else {
      var t := ReadToken(f, doc, p);
      TokenMeaning(f, doc, p);
      ShapeKinds(f, cs[0]);
      CommentsComplete(f, doc, t.end, cs[1..], q);
    }
  }

  lemma LeadingSound(f: Features, doc: string, p: nat) returns (cs: seq<string>, q: nat)
    requires p <= |doc|
    ensures q <= |doc| && Reads(f, doc, p, cs, q) && Leading(f, cs)
    ensures NextToken(f, doc, p) == ReadToken(f, doc, q)
  {
    hide ReadToken, SkipSpaces, IsCommentText, Reads;
    if f.allowComments {
      cs, q := CommentsSound(f, doc, p);
    } else {
      cs, q := [], p;
      assert Reads(f, doc, p, [], p) by { ReadsNothing(f, doc, p); }
    }
  }

  lemma ReadsNothing(f: Features, doc: string, p: nat)
    requires p <= |doc|
    ensures Reads(f, doc, p, [], p)
  {
  }

  lemma LeadingComplete(f: Features, doc: string, p: nat, cs: seq<string>, q: nat)
    requires p <= |doc| && q <= |doc| && Reads(f, doc, p, cs, q) && Leading(f, cs)
    requires ReadToken(f, doc, q).kind != CommentToken
    ensures NextToken(f, doc, p) == ReadToken(f, doc, q)
  {
    hide ReadToken, SkipSpaces, IsCommentText, SkipComments;
    if f.allowComments { CommentsComplete(f, doc, p, cs, q); } else { SameSpaces(f, doc, p, q); }
  }

  // ----- what is accepted is in the grammar --------------------------------------------------

  /** The tree found for a value read from `p` to `q`. */
  ghost predicate Derives(f: Features, doc: string, p: nat, depth: int, tree: Tree, value: Value, q: nat)
    requires p <= |doc|
  {
    && Legal(f, tree) && Meaning(f, tree) == value && depth + Depth(tree) <= f.stackLimit
    && q <= |doc| && Reads(f, doc, p, Yield(tree), q)
    && (tree.Nothing? ==> DroppedNull(f, ReadToken(f, doc, q).kind))
  }

  lemma {:induction false} ValueSound(f: Features, doc: string, st: State, prior: Value) returns (tree: Tree)
    requires st.cur <= |doc| && ReadValue(f, doc, st, prior).Done? && ReadValue(f, doc, st, prior).ok
    ensures var r := ReadValue(f, doc, st, prior); Derives(f, doc, st.cur, st.depth, tree, r.value, r.st.cur)
    decreases |doc| - st.cur, 0
  {
    hide ReadValue, ReadToken, NextToken, SkipSpaces, KindOf, Reads, StartsScalar, ReadMembers, ReadArray, ReadScalar, Derives;
    ValueByToken(f, doc, st, prior);
    var cs, q := LeadingSound(f, doc, st.cur);
    var t := ReadToken(f, doc, q);
    var x := TokenText(doc, t);
    var inside := st.(cur := t.end, depth := st.depth + 1);
    TokenMeaning(f, doc, q);
    MarkKinds(f, x);
    if t.kind == ObjectBegin {
      tree := ObjectSound(f, doc, st, inside, prior, cs, q);
    } else if t.kind == ArrayBegin {
      tree := ArraySound(f, doc, st, inside, prior, cs, q);
    } else {
      tree := ScalarSound(f, doc, st, inside, prior, cs, q);
    }
  }

  lemma ScalarSound(f: Features, doc: string, st: State, inside: State, prior: Value, cs: seq<string>, q: nat) returns (tree: Tree)
    requires st.cur <= |doc| && q <= |doc| && Reads(f, doc, st.cur, cs, q) && Leading(f, cs)
    requires var t := ReadToken(f, doc, q);
      && NextToken(f, doc, st.cur) == t && inside == st.(cur := t.end, depth := st.depth + 1)
      && st.depth < f.stackLimit && StartsScalar(f, t.kind)
      && ReadScalar(f, doc, t, inside, prior).Done? && ReadScalar(f, doc, t, inside, prior).ok
    ensures var r := ReadScalar(f, doc, ReadToken(f, doc, q), inside, prior);
      Derives(f, doc, st.cur, st.depth, tree, r.value, r.st.cur)
  {
    hide ReadToken, NextToken, SkipSpaces, KindOf, Reads, ScalarValue, DecodeString, IntegerOf, StringValue;
    var t := ReadToken(f, doc, q);
    var x := TokenText(doc, t);
    TokenMeaning(f, doc, q);
    if DroppedNull(f, t.kind) {
      tree := Nothing(cs);
      ReadsToStart(f, doc, st.cur, cs, q);
    } else {
      tree := Leaf(cs, x);
      ScalarKinds(f, x);
      if t.kind == StringToken { StringToText(f, doc, t); }
      ReadsOne(f, doc, q);
      ReadsAppend(f, doc, st.cur, cs, q, [x], t.end);
    }
  }

  /** The cursor may as well stand at the start of the next token. */
  lemma ReadsToStart(f: Features, doc: string, p: nat, ts: seq<string>, q: nat)
    requires p <= |doc| && q <= |doc| && Reads(f, doc, p, ts, q)
    ensures var s := ReadToken(f, doc, q).start;
      Reads(f, doc, p, ts, s) && ReadToken(f, doc, s) == ReadToken(f, doc, q)
  {
    hide ReadToken;
    TokenAgain(f, doc, q);
    SkippedStays(doc, q);
    var s := ReadToken(f, doc, q).start;
    assert Reads(f, doc, q, [], s);
    ReadsAppend(f, doc, p, ts, q, [], s);
    assert ts + [] == ts;
  }

  lemma BracketsDerive(f: Features, doc: string, p: nat, depth: int, cs: seq<string>, m: nat, items: Items, q: nat)
    requires p <= |doc| && m <= |doc| && q <= |doc| && Leading(f, cs) && Reads(f, doc, p, cs + ["["], m) && Reads(f, doc, m, ItemsYield(items), q)
    requires ItemsLegal(f, items, 0) && !(items.LastItem? && items.item == Nothing([]))
    requires depth + 1 + ItemsDepth(items) <= f.stackLimit
    ensures Derives(f, doc, p, depth, Brackets(cs, items), Array(ItemsMeaning(f, items, 0)), q)
  {
    hide Reads, ItemsLegal, ItemsMeaning, Comments, ReadToken, ItemsYield, ItemsDepth;
    ReadsAppend(f, doc, p, cs + ["["], m, ItemsYield(items), q);
  }

  lemma BracesDerive(f: Features, doc: string, p: nat, depth: int, cs: seq<string>, m: nat, members: Members, q: nat)
    requires p <= |doc| && m <= |doc| && q <= |doc| && Leading(f, cs) && Reads(f, doc, p, cs + ["{"], m) && Reads(f, doc, m, MembersYield(members), q)
    requires MembersLegal(f, members, Nil, "") && depth + 1 + MembersDepth(members) <= f.stackLimit
    ensures Derives(f, doc, p, depth, Braces(cs, members), Object(MembersMeaning(f, members, Nil)), q)
  {
    hide Reads, MembersLegal, MembersMeaning, Comments, ReadToken, MembersYield, MembersDepth;
    ReadsAppend(f, doc, p, cs + ["{"], m, MembersYield(members), q);
  }

  /** The token read at `q`, behind comments. */
  lemma ReadsMark(f: Features, doc: string, p: nat, cs: seq<string>, q: nat, mark: string)
    requires p <= |doc| && q <= |doc| && Reads(f, doc, p, cs, q)
    requires ReadToken(f, doc, q).kind == KindOf(f, mark) && mark in {"[", "{"}
    ensures Reads(f, doc, p, cs + [mark], ReadToken(f, doc, q).end)
  {
    hide ReadToken, KindOf, Reads;
    var t := ReadToken(f, doc, q);
    TokenMeaning(f, doc, q);
    MarkKinds(f, TokenText(doc, t));
    MarkKinds(f, mark);
    ReadsOne(f, doc, q);
    ReadsAppend(f, doc, p, cs, q, [mark], t.end);
  }

  lemma {:induction false} ArraySound(f: Features, doc: string, st: State, inside: State, prior: Value, cs: seq<string>, q: nat) returns (tree: Tree)
    requires st.cur <= |doc| && q <= |doc| && Reads(f, doc, st.cur, cs, q) && Leading(f, cs)
    requires var t := ReadToken(f, doc, q);
      && NextToken(f, doc, st.cur) == t && inside == st.(cur := t.end, depth := st.depth + 1)
      && st.depth < f.stackLimit && t.kind == ArrayBegin
      && ReadArray(f, doc, inside).Done? && ReadArray(f, doc, inside).ok
    ensures var r := ReadArray(f, doc, inside); Derives(f, doc, st.cur, st.depth, tree, r.value, r.st.cur)
    decreases |doc| - inside.cur, 3
  {
    hide ReadToken, NextToken, SkipSpaces, KindOf, Reads, ReadElements, Derives, ItemsYield, ItemsMeaning, ItemsDepth, ItemsLegal;
    MarkKinds(f, "[");
    ReadsMark(f, doc, st.cur, cs, q, "[");
    var p := inside.cur;
    var s := SkipSpaces(doc, p);
    var r := ReadArray(f, doc, inside);
    PeekIsToken(f, doc, p);
    SpacesOnly(f, doc, p);
    if CharAt(doc, s) == ']' {
      CloseSound(f, doc, p);
      BracketsDerive(f, doc, st.cur, st.depth, cs, p, NoItems, r.st.cur);
      tree := Brackets(cs, NoItems);
      assert ItemsMeaning(f, NoItems, 0) == Nil by { EmptyItems(f); }
    } else {
      var items := ItemsSound(f, doc, inside.(cur := s), Nil, 0);
      ReadsAppend(f, doc, p, [], s, ItemsYield(items), r.st.cur);
      assert [] + ItemsYield(items) == ItemsYield(items);
      if items.LastItem? && items.item == Nothing([]) {
        LastIsBehind(f, items);
        NotJustNothing(f, doc, s, items, r.st.cur);
      }
      BracketsDerive(f, doc, st.cur, st.depth, cs, p, items, r.st.cur);
      tree := Brackets(cs, items);
    }
  }

  lemma EmptyItems(f: Features)
    ensures ItemsMeaning(f, NoItems, 0) == Nil && ItemsLegal(f, NoItems, 0) && ItemsDepth(NoItems) == 0 && ItemsYield(NoItems) == ["]"]
  {
  }

  lemma LastIsBehind(f: Features, items: Items)
    requires items.LastItem? && items.item.Nothing? && ItemsLegal(f, items, 0)
    ensures items.after == []
  {
  }

  lemma CloseSound(f: Features, doc: string, p: nat)
    requires p <= |doc| && CharAt(doc, SkipSpaces(doc, p)) == ']'
    ensures Reads(f, doc, p, ItemsYield(NoItems), ReadToken(f, doc, SkipSpaces(doc, p)).end)
    ensures ItemsLegal(f, NoItems, 0) && ItemsDepth(NoItems) == 0
  {
    hide ReadToken, SkipSpaces, KindOf, Reads;
    PeekIsToken(f, doc, p);
    TokenMeaning(f, doc, p);
    MarkKinds(f, TokenText(doc, ReadToken(f, doc, p)));
    ReadsOne(f, doc, p);
  }

  lemma SpacesOnly(f: Features, doc: string, p: nat)
    requires p <= |doc|
    ensures Reads(f, doc, p, [], SkipSpaces(doc, p))
  {
    SkippedStays(doc, p);
  }

  /** An array of one dropped null without a comment would begin with its closing bracket. */
  lemma NotJustNothing(f: Features, doc: string, p: nat, items: Items, q: nat)
    requires p <= |doc| && items.LastItem? && items.item == Nothing([]) && items.after == []
    requires Reads(f, doc, p, ItemsYield(items), q)
    ensures ReadToken(f, doc, p).kind == ArrayEnd
  {
    hide ReadToken, KindOf;
    assert ItemsYield(items) == ["]"];
    ReadsFirst(f, doc, p, "]", q);
    MarkKinds(f, "]");
  }

  /** A value's tokens, comments and the token behind them. */
  lemma ReadsBehind(f: Features, doc: string, p: nat, y: seq<string>, m: nat, after: seq<string>, q: nat)
    requires p <= |doc| && m <= |doc| && q <= |doc| && Reads(f, doc, p, y, m) && Reads(f, doc, m, after, q)
    requires ReadToken(f, doc, q).start < ReadToken(f, doc, q).end
    ensures var t := ReadToken(f, doc, q); Reads(f, doc, p, y + after + [TokenText(doc, t)], t.end)
  {
    hide ReadToken, Reads;
    ReadsOne(f, doc, q);
    ReadsAppend(f, doc, p, y, m, after, q);
    ReadsAppend(f, doc, p, y + after, q, [TokenText(doc, ReadToken(f, doc, q))], ReadToken(f, doc, q).end);
  }

  /** One turn of the element loop behind a value that was read. */
  lemma ElementStep(f: Features, doc: string, st: State, e: Entries, i: nat, u: Outcome, t: Token)
    requires st.cur <= |doc| && i <= MAX_INT && AllBelow(e, Index(i))
    requires u == ReadValue(f, doc, st, Resolve(e, Index(i))) && u.Done? && u.ok
    requires t == SkipComments(f, doc, ReadToken(f, doc, u.st.cur))
    ensures var e1 := Append(e, Entry(Index(i), u.value, Nil));
      ReadElements(f, doc, st, e, i) ==
        if t.kind == ArrayEnd then Done(true, u.st.(cur := t.end), Array(e1))
        else if t.kind == ArraySeparator then ReadElements(f, doc, u.st.(cur := t.end), e1, i + 1)
        else Fail(f, doc, AddError(u.st.(cur := t.end), t, ArrayCommaMissing, 0), ArrayEnd, Array(e1))
  {
    hide ReadElements, ReadValue, ReadToken, SkipComments, Put, Append, Resolve, AllBelow, Fail, AddError;
    ElementsByToken(f, doc, st, e, i);
    PutAtEnd(e, Index(i), u.value);
  }

  /** The first element of an accepted array, and the token behind it. */
  lemma {:induction false} ItemSound(f: Features, doc: string, st: State, e: Entries, i: nat)
    returns (u: Outcome, tree: Tree, after: seq<string>, t: Token)
    requires st.cur <= |doc| && AllBelow(e, Index(i))
    requires ReadElements(f, doc, st, e, i).Done? && ReadElements(f, doc, st, e, i).ok
    ensures i <= MAX_INT && u == ReadValue(f, doc, st, Resolve(e, Index(i))) && u.Done? && u.ok
    ensures u.st.depth == st.depth && Meaning(f, tree) == u.value
    ensures t == SkipComments(f, doc, ReadToken(f, doc, u.st.cur)) && st.cur < t.end <= |doc|
    ensures Legal(f, tree) && Behind(f, tree, after) && st.depth + Depth(tree) <= f.stackLimit
    ensures t.kind == ArrayEnd || t.kind == ArraySeparator
    ensures Reads(f, doc, st.cur, Yield(tree) + after + [if t.kind == ArrayEnd then "]" else ","], t.end)
    decreases |doc| - st.cur, 1
  {
    hide ReadElements, ReadValue, ReadToken, SkipComments, SkipSpaces, KindOf, Reads, Put, Resolve, Append, AllBelow;
    ElementsByToken(f, doc, st, e, i);
    var prior := Resolve(e, Index(i));
    u := ReadValue(f, doc, st, prior);
    tree := ValueSound(f, doc, st, prior);
    R.ReadValueOrderly(f, doc, st, prior);
    var q;
    after, q := CommentsSound(f, doc, u.st.cur);
    t := ReadToken(f, doc, q);
    TokenMeaning(f, doc, q);
    MarkKinds(f, TokenText(doc, t));
    ReadsBehind(f, doc, st.cur, Yield(tree), u.st.cur, after, q);
  }

  lemma {:induction false} ItemsSound(f: Features, doc: string, st: State, e: Entries, i: nat) returns (items: Items)
    requires st.cur <= |doc| && AllBelow(e, Index(i))
    requires ReadElements(f, doc, st, e, i).Done? && ReadElements(f, doc, st, e, i).ok
    ensures var r := ReadElements(f, doc, st, e, i);
      && ItemsLegal(f, items, i) && !items.NoItems? && st.depth + ItemsDepth(items) <= f.stackLimit
      && r.value == Array(Append(e, ItemsMeaning(f, items, i)))
      && Reads(f, doc, st.cur, ItemsYield(items), r.st.cur)
    decreases |doc| - st.cur, 2
  {
    hide ReadElements, ReadValue, ReadToken, SkipComments, Reads, Resolve, Append, AllBelow, Legal, Meaning, Behind, Fail, AddError;
    var u, tree, after, t := ItemSound(f, doc, st, e, i);
    ElementStep(f, doc, st, e, i, u, t);
    if t.kind == ArrayEnd {
      items := LastItem(tree, after);
    } else {
      AllBelowExtended(e, Index(i), u.value, Index(i + 1));
      var r := ReadElements(f, doc, st, e, i);
      var rest := ItemsSound(f, doc, u.st.(cur := t.end), Append(e, Entry(Index(i), u.value, Nil)), i + 1);
      items := NextItem(tree, after, rest);
      ReadsAppend(f, doc, st.cur, Yield(tree) + after + [","], t.end, ItemsYield(rest), r.st.cur);
      AppendOne(e, Index(i), u.value, ItemsMeaning(f, rest, i + 1));
    }
  }

  lemma AppendOne(e: Entries, k: Key, v: Value, rest: Entries)
    ensures Append(Append(e, Entry(k, v, Nil)), rest) == Append(e, Entry(k, v, rest))
  {
    AppendAssociative(e, Entry(k, v, Nil), rest);
  }

  lemma {:induction false} ObjectSound(f: Features, doc: string, st: State, inside: State, prior: Value, cs: seq<string>, q: nat) returns (tree: Tree)
    requires st.cur <= |doc| && q <= |doc| && Reads(f, doc, st.cur, cs, q) && Leading(f, cs)
    requires var t := ReadToken(f, doc, q);
      && NextToken(f, doc, st.cur) == t && inside == st.(cur := t.end, depth := st.depth + 1)
      && st.depth < f.stackLimit && t.kind == ObjectBegin
      && ReadMembers(f, doc, inside, Nil, []).Done? && ReadMembers(f, doc, inside, Nil, []).ok
    ensures var r := ReadMembers(f, doc, inside, Nil, []); Derives(f, doc, st.cur, st.depth, tree, r.value, r.st.cur)
    decreases |doc| - inside.cur, 3
  {
    hide ReadToken, NextToken, KindOf, Reads, ReadMembers, Derives, MembersYield, MembersMeaning, MembersDepth, MembersLegal;
    MarkKinds(f, "{");
    ReadsMark(f, doc, st.cur, cs, q, "{");
    var members := MembersSound(f, doc, inside, Nil, []);
    BracesDerive(f, doc, st.cur, st.depth, cs, inside.cur, members, ReadMembers(f, doc, inside, Nil, []).st.cur);
    tree := Braces(cs, members);
  }

  lemma NameToText(f: Features, doc: string, t: Token)
    requires t.start <= t.end <= |doc| && Shaped(t) && t.kind == KindOf(f, TokenText(doc, t)) && IsName(f, t)
    ensures var n := NameOf(f, doc, t);
      var name := NameValue(f, TokenText(doc, t));
      if n.MemberName? && !(f.ours && |n.name| >= NAME_LIMIT) then name == Some(n.name) else name == None
  {
    hide KindOf, IsStringText, IsNumberText, DecodeString, StringValue, IntegerOf, NumberName;
    ShapeKinds(f, TokenText(doc, t));
    if t.kind == StringToken { StringToText(f, doc, t); }
  }

  lemma {:induction false} MembersSound(f: Features, doc: string, st: State, e: Entries, last: string) returns (members: Members)
    requires st.cur <= |doc| && st.depth <= f.stackLimit
    requires ReadMembers(f, doc, st, e, last).Done? && ReadMembers(f, doc, st, e, last).ok
    ensures var r := ReadMembers(f, doc, st, e, last);
      && MembersLegal(f, members, e, last) && st.depth + MembersDepth(members) <= f.stackLimit
      && r.value == Object(MembersMeaning(f, members, e))
      && Reads(f, doc, st.cur, MembersYield(members), r.st.cur)
    decreases |doc| - st.cur, 2
  {
    hide ReadMembers, ReadNamed, ReadToken, SkipComments, SkipSpaces, KindOf, Reads, Put, NameOf, IsName;
    MembersByToken(f, doc, st, e, last);
    var before, q := CommentsSound(f, doc, st.cur);
    var t := ReadToken(f, doc, q);
    var x := TokenText(doc, t);
    TokenMeaning(f, doc, q);
    MarkKinds(f, x);
    if t.kind == ObjectEnd && last == [] {
      members := NoMembers(before);
      ReadsOne(f, doc, q);
      ReadsAppend(f, doc, st.cur, before, q, ["}"], t.end);
    } else {
      ReadsOne(f, doc, q);
      ReadsAppend(f, doc, st.cur, before, q, [x], t.end);
      NameToText(f, doc, t);
      members := NamedSound(f, doc, st, e, before, q, NameOf(f, doc, t).name);
    }
  }

  /** What an accepted member consists of. */
  lemma NamedAccepts(f: Features, doc: string, st: State, e: Entries, t: Token, name: string)
    requires st.cur <= |doc| && ReadNamed(f, doc, st, e, t, name).Done? && ReadNamed(f, doc, st, e, t, name).ok
    ensures var colon := ReadToken(f, doc, st.cur);
      var k := StoredName(name);
      var u := ReadValue(f, doc, st.(cur := colon.end), Resolve(e, k));
      && colon.kind == MemberSeparator && !(f.ours && |name| >= NAME_LIMIT)
      && (f.ours && f.rejectDupKeys ==> Find(e, k).None?)
      && u.Done? && u.ok && ReadNamed(f, doc, st, e, t, name) == MemberEnd(f, doc, u.st, Put(e, k, u.value), name)
  {
    hide ReadToken, ReadValue, MemberEnd, Recover, Put, Find, Resolve, StoredName;
  }

  lemma EndAccepts(f: Features, doc: string, st: State, e: Entries, name: string)
    requires st.cur <= |doc| && MemberEnd(f, doc, st, e, name).Done? && MemberEnd(f, doc, st, e, name).ok
    ensures var comma := ReadToken(f, doc, st.cur);
      var t := SkipComments(f, doc, comma);
      && comma.kind in {ObjectEnd, ArraySeparator, CommentToken}
      && MemberEnd(f, doc, st, e, name)
         == if t.kind == ObjectEnd then Done(true, st.(cur := t.end), Object(e)) else ReadMembers(f, doc, st.(cur := t.end), e, name)
  {
    hide ReadToken, SkipComments, ReadMembers, Recover;
  }

  /** At the end of the document no member follows. */
  lemma NoMemberAtEnd(f: Features, doc: string, st: State, e: Entries, name: string)
    requires st.cur == |doc|
    ensures var r := ReadMembers(f, doc, st, e, name); r.Done? && !r.ok
  {
    hide Recover;
    assert SkipSpaces(doc, |doc|) == |doc|;
    assert ReadToken(f, doc, |doc|).kind == EndOfStream;
  }

  /** The colon and the value of an accepted member. */
  lemma {:induction false} NamedValueSound(f: Features, doc: string, st: State, e: Entries, before: seq<string>, q: nat, name: string)
    returns (u: Outcome, tree: Tree)
    requires st.cur <= |doc| && q <= |doc|
    requires var t := ReadToken(f, doc, q);
      && st.cur < t.end && Reads(f, doc, st.cur, before + [TokenText(doc, t)], t.end)
      && ReadNamed(f, doc, st.(cur := t.end), e, t, name).Done? && ReadNamed(f, doc, st.(cur := t.end), e, t, name).ok
    ensures var t := ReadToken(f, doc, q);
      && u.Done? && u.ok && u.st.depth == st.depth && st.cur < u.st.cur <= |doc|
      && Legal(f, tree) && Meaning(f, tree) == u.value && st.depth + Depth(tree) <= f.stackLimit
      && Reads(f, doc, st.cur, before + [TokenText(doc, t), ":"] + Yield(tree), u.st.cur)
      && (tree.Nothing? ==> DroppedNull(f, ReadToken(f, doc, u.st.cur).kind))
      && !(f.ours && |name| >= NAME_LIMIT) && (f.ours && f.rejectDupKeys ==> Find(e, StoredName(name)).None?)
      && ReadNamed(f, doc, st.(cur := t.end), e, t, name) == MemberEnd(f, doc, u.st, Put(e, StoredName(name), u.value), name)
    decreases |doc| - st.cur, 0
  {
    hide ReadNamed, ReadValue, MemberEnd, ReadToken, SkipSpaces, KindOf, Reads, Put, Find, Resolve, StoredName, Legal, Meaning;
    var t := ReadToken(f, doc, q);
    var x := TokenText(doc, t);
    NamedAccepts(f, doc, st.(cur := t.end), e, t, name);
    var colon := ReadToken(f, doc, t.end);
    TokenMeaning(f, doc, t.end);
    MarkKinds(f, TokenText(doc, colon));
    ReadsOne(f, doc, t.end);
    ReadsAppend(f, doc, st.cur, before + [x], t.end, [":"], colon.end);
    var behind := st.(cur := colon.end);
    var prior := Resolve(e, StoredName(name));
    u := ReadValue(f, doc, behind, prior);
    tree := ValueSound(f, doc, behind, prior);
    R.ReadValueOrderly(f, doc, behind, prior);
    NameFront(before, x, Yield(tree));
    ReadsAppend(f, doc, st.cur, before + [x] + [":"], colon.end, Yield(tree), u.st.cur);
  }

  lemma {:induction false} NamedSound(f: Features, doc: string, st: State, e: Entries, before: seq<string>, q: nat, name: string) returns (members: Members)
    requires st.cur <= |doc| && q <= |doc| && st.depth <= f.stackLimit
    requires var t := ReadToken(f, doc, q);
      && st.cur < t.end
      && Reads(f, doc, st.cur, before + [TokenText(doc, t)], t.end) && Comments(f, before)
      && (!(f.ours && |name| >= NAME_LIMIT) ==> NameValue(f, TokenText(doc, t)) == Some(name))
      && ReadNamed(f, doc, st.(cur := t.end), e, t, name).Done? && ReadNamed(f, doc, st.(cur := t.end), e, t, name).ok
    ensures var t := ReadToken(f, doc, q);
      var r := ReadNamed(f, doc, st.(cur := t.end), e, t, name);
      && (forall last :: MembersLegal(f, members, e, last)) && st.depth + MembersDepth(members) <= f.stackLimit
      && r.value == Object(MembersMeaning(f, members, e))
      && Reads(f, doc, st.cur, MembersYield(members), r.st.cur)
    decreases |doc| - st.cur, 1
  {
    hide ReadMembers, ReadNamed, MemberEnd, ReadToken, SkipComments, SkipSpaces, KindOf, Reads, Put, Find, StoredName, NameValue, Legal, Meaning;
    var x := TokenText(doc, ReadToken(f, doc, q));
    var u, tree := NamedValueSound(f, doc, st, e, before, q, name);
    var k := StoredName(name);
    assert NameKey(f, x) == k;
    var e1 := Put(e, k, u.value);
    EndAccepts(f, doc, u.st, e1, name);
    var after, q2 := CommentsSound(f, doc, u.st.cur);
    var t2 := ReadToken(f, doc, q2);
    var x2 := TokenText(doc, t2);
    TokenMeaning(f, doc, q2);
    MarkKinds(f, x2);
    ShapeKinds(f, x2);
    var front := before + [x, ":"] + Yield(tree);
    assert MemberLegal(f, e, before, x, tree, after);
    if t2.kind == ObjectEnd {
      members := LastMember(before, x, tree, after);
      ReadsBehind(f, doc, st.cur, front, u.st.cur, after, q2);
    } else {
      if t2.start == t2.end {
        OnlyTheEndIsEmpty(f, doc, q2);
        NoMemberAtEnd(f, doc, u.st.(cur := t2.end), e1, name);
        assert false;
      }
      ReadsBehind(f, doc, st.cur, front, u.st.cur, after, q2);
      var rest := MembersSound(f, doc, u.st.(cur := t2.end), e1, name);
      members := NextMember(before, x, tree, after, x2, rest);
      ReadsAppend(f, doc, st.cur, front + after + [x2], t2.end, MembersYield(rest), ReadMembers(f, doc, u.st.(cur := t2.end), e1, name).st.cur);
    }
  }

  lemma NameFront(before: seq<string>, x: string, y: seq<string>)
    ensures before + [x] + [":"] + y == before + [x, ":"] + y
  {
    assert before + [x] + [":"] == before + [x, ":"];
  }

  // ----- what is in the grammar is accepted --------------------------------------------------

  /** Success with this value, the cursor white space apart from `q`. */
  ghost predicate Accepts(doc: string, st: State, r: Outcome, value: Value, q: nat) {
    && r.Done? && r.ok && r.value == value && r.st.depth == st.depth && r.st.errors == st.errors
    && r.st.cur <= |doc| && q <= |doc| && SkipSpaces(doc, r.st.cur) == SkipSpaces(doc, q)
  }

  /** Tokens read from one place are read from any other with the same next token. */
  lemma ReadsFrom(f: Features, doc: string, p: nat, c: nat, ts: seq<string>, q: nat)
    requires p <= |doc| && c <= |doc| && SkipSpaces(doc, p) == SkipSpaces(doc, c) && ts != [] && Reads(f, doc, p, ts, q)
    ensures Reads(f, doc, c, ts, q)
  {
    hide ReadToken, SkipSpaces;
    SameSpaces(f, doc, p, c);
  }

  lemma {:induction false} ValueComplete(f: Features, doc: string, st: State, prior: Value, tree: Tree, q: nat)
    requires st.cur <= |doc| && q <= |doc| && Reads(f, doc, st.cur, Yield(tree), q)
    requires Legal(f, tree) && st.depth + Depth(tree) <= f.stackLimit
    requires tree.Nothing? ==> DroppedNull(f, ReadToken(f, doc, q).kind)
    ensures Accepts(doc, st, ReadValue(f, doc, st, prior), Meaning(f, tree), q)
    decreases tree, 0
  {
    hide ReadValue, ReadToken, NextToken, SkipSpaces, KindOf, Reads, ReadMembers, ReadArray, ReadScalar, StartsScalar;
    ValueByToken(f, doc, st, prior);
    match tree {
      case Leaf(before, token) =>
        var m := ReadsSplit(f, doc, st.cur, before, [token], q);
        ReadsFirst(f, doc, m, token, q);
        ScalarKinds(f, token);
        LeadingComplete(f, doc, st.cur, before, m);
        LeafComplete(f, doc, st, prior, m, token, q);
      case Nothing(before) =>
        LeadingComplete(f, doc, st.cur, before, q);
        NothingComplete(f, doc, st, prior, q);
      case Brackets(before, items) =>
        var m := ReadsSplit(f, doc, st.cur, before + ["["], ItemsYield(items), q);
        var n := ReadsSplit(f, doc, st.cur, before, ["["], m);
        ReadsFirst(f, doc, n, "[", m);
        MarkKinds(f, "[");
        LeadingComplete(f, doc, st.cur, before, n);
        var t := ReadToken(f, doc, n);
        assert ItemsYield(items) != [] by { ItemsYieldSome(items); }
        ReadsFrom(f, doc, m, t.end, ItemsYield(items), q);
        ArrayComplete(f, doc, st.(cur := t.end, depth := st.depth + 1), items, q);
      case Braces(before, members) =>
        var m := ReadsSplit(f, doc, st.cur, before + ["{"], MembersYield(members), q);
        var n := ReadsSplit(f, doc, st.cur, before, ["{"], m);
        ReadsFirst(f, doc, n, "{", m);
        MarkKinds(f, "{");
        LeadingComplete(f, doc, st.cur, before, n);
        var t := ReadToken(f, doc, n);
        assert MembersYield(members) != [] by { MembersYieldSome(members); }
        ReadsFrom(f, doc, m, t.end, MembersYield(members), q);
        MembersComplete(f, doc, st.(cur := t.end, depth := st.depth + 1), Nil, [], members, q);
    }
  }

  lemma ItemsYieldSome(items: Items)
    ensures ItemsYield(items) != []
  {
  }

  lemma MembersYieldSome(members: Members)
    ensures MembersYield(members) != []
  {
  }

  lemma LeafComplete(f: Features, doc: string, st: State, prior: Value, m: nat, token: string, q: nat)
    requires st.cur <= |doc| && m <= |doc| && q <= |doc| && ScalarValue(f, token).Some? && st.depth < f.stackLimit
    requires var t := ReadToken(f, doc, m);
      && NextToken(f, doc, st.cur) == t && TokenText(doc, t) == token && t.kind == KindOf(f, token)
      && SkipSpaces(doc, t.end) == SkipSpaces(doc, q)
    ensures Accepts(doc, st, ReadValue(f, doc, st, prior), ScalarValue(f, token).value, q)
  {
    hide ReadValue, ReadToken, NextToken, SkipSpaces, KindOf, ScalarValue, DecodeString, IntegerOf, StringValue, ReadMembers, ReadArray;
    ValueByToken(f, doc, st, prior);
    var t := ReadToken(f, doc, m);
    ScalarKinds(f, token);
    if t.kind == StringToken { StringToText(f, doc, t); }
  }

  lemma NothingComplete(f: Features, doc: string, st: State, prior: Value, q: nat)
    requires st.cur <= |doc| && q <= |doc| && st.depth < f.stackLimit
    requires NextToken(f, doc, st.cur) == ReadToken(f, doc, q) && DroppedNull(f, ReadToken(f, doc, q).kind)
    ensures Accepts(doc, st, ReadValue(f, doc, st, prior), Null, q)
  {
    hide ReadValue, ReadToken, NextToken, KindOf, ReadMembers, ReadArray;
    ValueByToken(f, doc, st, prior);
    TokenAgain(f, doc, q);
    SkippedStays(doc, q);
  }

  /** A legal array does not begin with its closing bracket unless it is empty. */
  lemma FirstNotClose(f: Features, items: Items)
    requires ItemsLegal(f, items, 0) && !items.NoItems? && !(items.LastItem? && items.item == Nothing([]))
    ensures ItemsYield(items) != [] && ItemsYield(items)[0] != "]"
  {
    hide IsStringText, IsNumberText;
    MarkKinds(f, "]");
    ScalarKinds(f, "]");
    ShapeKinds(f, "]");
  }

  lemma {:induction false} ArrayComplete(f: Features, doc: string, st: State, items: Items, q: nat)
    requires st.cur <= |doc| && q <= |doc| && Reads(f, doc, st.cur, ItemsYield(items), q)
    requires ItemsLegal(f, items, 0) && !(items.LastItem? && items.item == Nothing([])) && st.depth + ItemsDepth(items) <= f.stackLimit
    ensures Accepts(doc, st, ReadArray(f, doc, st), Array(ItemsMeaning(f, items, 0)), q)
    decreases items, 2
  {
    hide ReadToken, SkipSpaces, KindOf, ReadElements, ItemsLegal;
    var s := SkipSpaces(doc, st.cur);
    var t := ReadToken(f, doc, st.cur);
    PeekIsToken(f, doc, st.cur);
    TokenMeaning(f, doc, st.cur);
    MarkKinds(f, TokenText(doc, t));
    if items.NoItems? {
      ReadsFirst(f, doc, st.cur, "]", q);
      MarkKinds(f, "]");
    } else {
      FirstNotClose(f, items);
      SkippedStays(doc, st.cur);
      ReadsFrom(f, doc, st.cur, s, ItemsYield(items), q);
      ItemsComplete(f, doc, st.(cur := s), Nil, 0, items, q);
    }
  }

  lemma TailOf(y: seq<string>, after: seq<string>, close: seq<string>, rest: seq<string>)
    ensures y + after + close + rest == y + (after + (close + rest))
    ensures y + after + close == y + (after + close)
  {
  }

  /** The first element, and what is read behind it. */
  lemma {:induction false} ItemComplete(f: Features, doc: string, st: State, prior: Value, item: Tree, after: seq<string>, mark: string, rest: seq<string>, q: nat)
    returns (u: Outcome, n: nat)
    requires st.cur <= |doc| && q <= |doc| && Reads(f, doc, st.cur, Yield(item) + (after + ([mark] + rest)), q)
    requires Legal(f, item) && Behind(f, item, after) && st.depth + Depth(item) <= f.stackLimit
    requires mark in {",", "]", "}"} || (after != [] && mark != "" && !IsCommentText(f, mark))
    ensures u == ReadValue(f, doc, st, prior) && u.Done? && u.ok && u.value == Meaning(f, item)
    ensures u.st.depth == st.depth && u.st.errors == st.errors && u.st.cur <= |doc| && n <= |doc|
    ensures var t := ReadToken(f, doc, n);
      && SkipComments(f, doc, ReadToken(f, doc, u.st.cur)) == t && t.start < t.end && t.kind == KindOf(f, mark) && TokenText(doc, t) == mark
      && Reads(f, doc, t.end, rest, q)
      && (after == [] ==> ReadToken(f, doc, u.st.cur) == t) && (after != [] ==> ReadToken(f, doc, u.st.cur).kind == CommentToken)
    decreases item, 1
  {
    hide ReadValue, ReadToken, SkipSpaces, KindOf, IsCommentText, Legal, SkipComments;
    var tail := after + ([mark] + rest);
    var m := ReadsSplit(f, doc, st.cur, Yield(item), tail, q);
    MarkKinds(f, mark);
    ShapeKinds(f, mark);
    u := ReadValue(f, doc, st, prior);
    if after == [] { assert tail == [mark] + rest; }
    if item.Nothing? {
      MarkNext(f, doc, m, mark, rest, q);
      NothingAllowed(f, item);
    }
    ValueComplete(f, doc, st, prior, item, m);
    var c := u.st.cur;
    ReadsFrom(f, doc, m, c, tail, q);
    n := ReadsSplit(f, doc, c, after, [mark] + rest, q);
    MarkNext(f, doc, n, mark, rest, q);
    assert IsCommentText(f, mark) <==> KindOf(f, mark) == CommentToken;
    MarkIsNoComment(f, mark, after);
    CommentsComplete(f, doc, c, after, n);
    if after == [] {
      SameSpaces(f, doc, c, n);
    } else {
      TokenMeaning(f, doc, c);
      ShapeKinds(f, after[0]);
      CommentFirst(f, doc, c, after, n);
    }
  }

  lemma NothingAllowed(f: Features, item: Tree)
    requires item.Nothing? && Legal(f, item)
    ensures f.allowDroppedNullPlaceholders
  {
  }

  lemma CommentFirst(f: Features, doc: string, c: nat, after: seq<string>, n: nat)
    requires c <= |doc| && after != [] && Reads(f, doc, c, after, n) && Comments(f, after)
    ensures ReadToken(f, doc, c).kind == CommentToken
  {
    hide ReadToken, KindOf, IsCommentText;
    TokenMeaning(f, doc, c);
    ShapeKinds(f, after[0]);
    assert IsCommentText(f, after[0]);
  }

  lemma MarkIsNoComment(f: Features, mark: string, after: seq<string>)
    requires mark in {",", "]", "}"} || !IsCommentText(f, mark)
    ensures !IsCommentText(f, mark)
  {
  }

  lemma MarkNext(f: Features, doc: string, n: nat, mark: string, rest: seq<string>, q: nat)
    requires n <= |doc| && Reads(f, doc, n, [mark] + rest, q)
    ensures var t := ReadToken(f, doc, n);
      t.start < t.end && TokenText(doc, t) == mark && t.kind == KindOf(f, mark) && Reads(f, doc, t.end, rest, q)
  {
    hide ReadToken, KindOf;
    assert ([mark] + rest)[0] == mark && ([mark] + rest)[1..] == rest;
    TokenMeaning(f, doc, n);
  }

  /** One turn of the element loop over a legal list. */
  lemma {:induction false} ItemTurn(f: Features, doc: string, st: State, e: Entries, i: nat, items: Items, q: nat) returns (u: Outcome, t: Token)
    requires st.cur <= |doc| && q <= |doc| && Reads(f, doc, st.cur, ItemsYield(items), q)
    requires ItemsLegal(f, items, i) && !items.NoItems? && AllBelow(e, Index(i)) && st.depth + ItemsDepth(items) <= f.stackLimit
    ensures u.Done? && u.value == Meaning(f, items.item) && u.st.depth == st.depth && u.st.errors == st.errors && t.end <= |doc|
    ensures Reads(f, doc, t.end, if items.LastItem? then [] else ItemsYield(items.rest), q)
    ensures var e1 := Append(e, Entry(Index(i), u.value, Nil));
      ReadElements(f, doc, st, e, i) ==
        if items.LastItem? then Done(true, u.st.(cur := t.end), Array(e1)) else ReadElements(f, doc, u.st.(cur := t.end), e1, i + 1)
    decreases items, 0
  {
    hide ReadElements, ReadValue, ReadToken, SkipComments, SkipSpaces, KindOf, Resolve, Reads, Legal, Meaning, Append, AllBelow;
    hide Behind, Fail, AddError, TokenText;
    var rest := if items.LastItem? then [] else ItemsYield(items.rest);
    var mark := if items.LastItem? then "]" else ",";
    TailOf(Yield(items.item), items.after, [mark], rest);
    assert items.LastItem? ==> [mark] + rest == [mark];
    MarkKinds(f, mark);
    var n;
    u, n := ItemComplete(f, doc, st, Resolve(e, Index(i)), items.item, items.after, mark, rest, q);
    t := ReadToken(f, doc, n);
    ElementStep(f, doc, st, e, i, u, t);
  }

  lemma {:induction false} ItemsComplete(f: Features, doc: string, st: State, e: Entries, i: nat, items: Items, q: nat)
    requires st.cur <= |doc| && q <= |doc| && Reads(f, doc, st.cur, ItemsYield(items), q)
    requires ItemsLegal(f, items, i) && !items.NoItems? && AllBelow(e, Index(i)) && st.depth + ItemsDepth(items) <= f.stackLimit
    ensures Accepts(doc, st, ReadElements(f, doc, st, e, i), Array(Append(e, ItemsMeaning(f, items, i))), q)
    decreases items, 1
  {
    hide ReadElements, SkipSpaces, Reads, Legal, Meaning, Append, AllBelow, ItemsYield, Behind;
    var u, t := ItemTurn(f, doc, st, e, i, items, q);
    if items.LastItem? {
      EndsThere(f, doc, t.end, q);
    } else {
      AllBelowExtended(e, Index(i), u.value, Index(i + 1));
      ItemsComplete(f, doc, u.st.(cur := t.end), Append(e, Entry(Index(i), u.value, Nil)), i + 1, items.rest, q);
      AppendOne(e, Index(i), u.value, ItemsMeaning(f, items.rest, i + 1));
    }
  }

  lemma EndsThere(f: Features, doc: string, p: nat, q: nat)
    requires p <= |doc| && Reads(f, doc, p, [], q)
    ensures q <= |doc| && SkipSpaces(doc, p) == SkipSpaces(doc, q)
  {
  }

  lemma {:induction false} MembersComplete(f: Features, doc: string, st: State, e: Entries, last: string, members: Members, q: nat)
    requires st.cur <= |doc| && q <= |doc| && Reads(f, doc, st.cur, MembersYield(members), q)
    requires MembersLegal(f, members, e, last) && st.depth + MembersDepth(members) <= f.stackLimit
    ensures Accepts(doc, st, ReadMembers(f, doc, st, e, last), Object(MembersMeaning(f, members, e)), q)
    decreases members, 1
  {
    hide ReadMembers, ReadNamed, ReadToken, SkipComments, SkipSpaces, KindOf, Reads, Legal, Meaning, Put, Find, NameKey, NameValue, IsCommentText;
    MembersByToken(f, doc, st, e, last);
    if members.NoMembers? {
      var m := ReadsSplit(f, doc, st.cur, members.before, ["}"], q);
      ReadsFirst(f, doc, m, "}", q);
      MarkKinds(f, "}");
      CommentsComplete(f, doc, st.cur, members.before, m);
    } else {
      var rest := if members.LastMember? then [] else MembersYield(members.rest);
      var mark := if members.LastMember? then "}" else members.separator;
      MemberTail(members.before, members.name, Yield(members.value), members.after, mark, rest);
      var tail := [":"] + (Yield(members.value) + (members.after + ([mark] + rest)));
      var m := ReadsSplit(f, doc, st.cur, members.before, [members.name] + tail, q);
      MarkNext(f, doc, m, members.name, tail, q);
      NameKinds(f, members.name);
      CommentsComplete(f, doc, st.cur, members.before, m);
      var t := ReadToken(f, doc, m);
      NameToText(f, doc, t);
      NamedComplete(f, doc, st.(cur := t.end), e, t, NameOf(f, doc, t).name, members, mark, rest, q);
    }
  }

  lemma MemberTail(before: seq<string>, name: string, y: seq<string>, after: seq<string>, mark: string, rest: seq<string>)
    ensures before + [name, ":"] + y + after + [mark] + rest == before + ([name] + ([":"] + (y + (after + ([mark] + rest)))))
    ensures rest == [] ==> before + [name, ":"] + y + after + [mark] == before + ([name] + ([":"] + (y + (after + ([mark] + rest)))))
  {
    assert before + [name, ":"] == before + [name] + [":"];
    assert before + [name, ":"] + y + after + [mark] + rest == before + [name, ":"] + (y + (after + ([mark] + rest)));
  }

  /** A token that stands for a name is a string or, if those are allowed, a number. */
  lemma NameKinds(f: Features, x: string)
    ensures NameValue(f, x).Some? ==>
      KindOf(f, x) == StringToken || (KindOf(f, x) == NumberToken && f.allowNumericKeys)
  {
    hide IsStringText, IsNumberText, IsCommentText, KindOf, NumberValue, StringValue, NumberName;
    ShapeKinds(f, x);
  }

  /** One turn of readNamed, put together. */
  lemma NamedStep(f: Features, doc: string, st: State, e: Entries, t: Token, name: string, colon: Token, u: Outcome)
    requires st.cur <= |doc| && colon == ReadToken(f, doc, st.cur) && colon.kind == MemberSeparator
    requires !(f.ours && |name| >= NAME_LIMIT) && (f.ours && f.rejectDupKeys ==> Find(e, StoredName(name)).None?)
    requires u == ReadValue(f, doc, st.(cur := colon.end), Resolve(e, StoredName(name))) && u.Done? && u.ok
    ensures ReadNamed(f, doc, st, e, t, name) == MemberEnd(f, doc, u.st, Put(e, StoredName(name), u.value), name)
  {
    hide ReadToken, ReadValue, MemberEnd, Recover, Put, Find, Resolve, StoredName;
  }

  lemma EndStep(f: Features, doc: string, st: State, e: Entries, name: string, t: Token)
    requires st.cur <= |doc| && t == SkipComments(f, doc, ReadToken(f, doc, st.cur))
    requires ReadToken(f, doc, st.cur).kind in {ObjectEnd, ArraySeparator, CommentToken}
    ensures MemberEnd(f, doc, st, e, name)
         == if t.kind == ObjectEnd then Done(true, st.(cur := t.end), Object(e)) else ReadMembers(f, doc, st.(cur := t.end), e, name)
  {
    hide ReadToken, SkipComments, ReadMembers, Recover;
  }

  /** The tree of the member at hand. */
  predicate Front(members: Members, mark: string, rest: seq<string>) {
    && !members.NoMembers?
    && mark == (if members.LastMember? then "}" else members.separator)
    && rest == if members.LastMember? then [] else MembersYield(members.rest)
  }

  lemma {:induction false} NamedComplete(f: Features, doc: string, st: State, e: Entries, t: Token, name: string,
                                         members: Members, mark: string, rest: seq<string>, q: nat)
    requires st.cur <= |doc| && q <= |doc| && Front(members, mark, rest) && NameValue(f, members.name) == Some(name)
    requires Reads(f, doc, st.cur, [":"] + (Yield(members.value) + (members.after + ([mark] + rest))), q)
    requires (exists last :: MembersLegal(f, members, e, last)) && st.depth + MembersDepth(members) <= f.stackLimit
    ensures Accepts(doc, st, ReadNamed(f, doc, st, e, t, name), Object(MembersMeaning(f, members, e)), q)
    decreases members, 0
  {
    hide ReadMembers, ReadNamed, ReadValue, MemberEnd, ReadToken, SkipComments, SkipSpaces, KindOf, Reads, Legal, Meaning, Put, Find, Resolve, StoredName, IsCommentText;
    var last :| MembersLegal(f, members, e, last);
    NameLimit(f, members.name);
    MarkKinds(f, ":");
    MarkKinds(f, mark);
    MarkNext(f, doc, st.cur, ":", Yield(members.value) + (members.after + ([mark] + rest)), q);
    var colon := ReadToken(f, doc, st.cur);
    var k := StoredName(name);
    assert NameKey(f, members.name) == k;
    var u, n := ItemComplete(f, doc, st.(cur := colon.end), Resolve(e, k), members.value, members.after, mark, rest, q);
    NamedStep(f, doc, st, e, t, name, colon, u);
    var t2 := ReadToken(f, doc, n);
    var e1 := Put(e, k, u.value);
    EndStep(f, doc, u.st, e1, name, t2);
    if members.LastMember? {
      EndsThere(f, doc, t2.end, q);
    } else {
      MembersComplete(f, doc, u.st.(cur := t2.end), e1, name, members.rest, q);
    }
  }

  lemma NameLimit(f: Features, x: string)
    ensures NameValue(f, x).Some? ==> !(f.ours && |NameValue(f, x).value| >= NAME_LIMIT)
  {
    hide IsStringText, IsNumberText, NumberValue, StringValue, NumberName;
  }

  // ----- whole documents -----------------------------------------------------------------------

  /** What parse asks for besides a value: a container, and nothing behind it. */
  ghost predicate Finished(f: Features, doc: string, value: Value, q: nat)
    requires q <= |doc|
  {
    && (f.strictRoot ==> value.Array? || value.Object?)
    && (f.ours && f.failIfExtra ==> NextToken(f, doc, q).kind in {ErrorToken, EndOfStream})
  }

  /** A document of the grammar with this value. */
  ghost predicate InGrammar(f: Features, doc: string, value: Value) {
    exists tree: Tree, q: nat :: q <= |doc| && Derives(f, doc, 0, 0, tree, value, q) && Finished(f, doc, value, q)
  }

  lemma ParseSound(f: Features, doc: string, root: Value)
    ensures var r := Parse(f, doc, root); r.Done? && r.ok ==> InGrammar(f, doc, r.value)
  {
    hide ReadValue, NextToken, SkipSpaces, Derives;
    var start := State(0, 0, []);
    var u := ReadValue(f, doc, start, root);
    var r := Parse(f, doc, root);
    if r.Done? && r.ok {
      var tree := ValueSound(f, doc, start, root);
      DerivedInside(f, doc, tree, u.value, u.st.cur);
      assert Finished(f, doc, u.value, u.st.cur);
    }
  }

  lemma ParseComplete(f: Features, doc: string, root: Value, value: Value)
    requires InGrammar(f, doc, value)
    ensures var r := Parse(f, doc, root); r.Done? && r.ok && r.value == value
  {
    hide ReadValue, NextToken, SkipSpaces, Derives;
    var u := ReadValue(f, doc, State(0, 0, []), root);
    var tree: Tree, q: nat :| q <= |doc| && Derives(f, doc, 0, 0, tree, value, q) && Finished(f, doc, value, q);
    DerivedAccepts(f, doc, State(0, 0, []), root, tree, value, q);
    SameSpaces(f, doc, u.st.cur, q);
  }

  /** parse returns true with a value exactly for the documents of the grammar with that value. */
  lemma ParseAccepts(f: Features, doc: string, root: Value, value: Value)
    ensures var r := Parse(f, doc, root); (r.Done? && r.ok && r.value == value) <==> InGrammar(f, doc, value)
  {
    hide Parse, InGrammar;
    ParseSound(f, doc, root);
    if InGrammar(f, doc, value) { ParseComplete(f, doc, root, value); }
  }

  lemma DerivedInside(f: Features, doc: string, tree: Tree, value: Value, q: nat)
    requires Derives(f, doc, 0, 0, tree, value, q)
    ensures q <= |doc|
  {
  }

  lemma DerivedAccepts(f: Features, doc: string, st: State, prior: Value, tree: Tree, value: Value, q: nat)
    requires st.cur <= |doc| && Derives(f, doc, st.cur, st.depth, tree, value, q)
    ensures Accepts(doc, st, ReadValue(f, doc, st, prior), value, q)
  {
    hide ReadValue, ReadToken, SkipSpaces, Reads, Legal, Meaning;
    ValueComplete(f, doc, st, prior, tree, q);
  }
}
