/** Reading back what FastWriter wrote.

    The reader's normal form of a tree: array gaps are null elements, and an integer is tagged
    int up to 2^31 - 1 and uint above. */
module JsonRoundTrip {
  import opened JsonValue
  import opened JsonNumber
  import opened JsonString
  import opened JsonScanner
  import opened JsonParser
  import opened JsonFastWriter

  function Normalize(v: Value): Value
    decreases Weight(v), 0, 0
  {
    match v
    case Int(i) => Tagged(i, i < 0)
    case UInt(u) => Tagged(u, u < 0)
    case Array(e) => Array(Dense(e, 0, ArraySize(e)))
    case Object(e) => Object(NormalizeMembers(e))
    case _ => v
  }

  function Dense(e: Entries, i: nat, n: nat): Entries
    decreases EntriesWeight(e), 1, n - i
  {
    if i >= n then Nil else Entry(Index(i), Normalize(At(e, i)), Dense(e, i + 1, n))
  }

  function NormalizeMembers(e: Entries): Entries
    decreases EntriesWeight(e), 1, 0
  {
    if e.Nil? then Nil else Entry(e.key, Normalize(e.value), NormalizeMembers(e.rest))
  }

  /** No real, no null string pointer, and no array longer than the reader's int index reaches. */
  predicate Readable(v: Value) {
    match v
    case Real(_) => false
    case NullString => false
    case Array(e) => Span(e) <= MAX_INT + 1 && EntriesReadable(e)
    case Object(e) => EntriesReadable(e)
    case _ => true
  }

  predicate EntriesReadable(e: Entries) {
    e.Entry? ==> Readable(e.value) && EntriesReadable(e.rest)
  }

  predicate Writable(v: Value) { WellFormed(v) && Readable(v) }

  // ----- dropped null placeholders -------------------------------------------------------------

  /** Text in which null is written as nothing still tells the value: there is no array whose one
      element is null, and if the reader does not allow dropped nulls there is no null at all. */
  predicate Survives(allowed: bool, v: Value)
    decreases Weight(v), 0, 0
  {
    match v
    case Null => allowed
    case Array(e) => !LoneNull(e) && ItemsSurvive(allowed, e, 0, ArraySize(e))
    case Object(e) => MembersSurvive(allowed, e)
    case _ => true
  }

  predicate LoneNull(e: Entries) { ArraySize(e) == 1 && At(e, 0) == Null }

  predicate ItemsSurvive(allowed: bool, e: Entries, i: nat, n: nat)
    decreases EntriesWeight(e), 1, n - i
  {
    i < n ==> Survives(allowed, At(e, i)) && ItemsSurvive(allowed, e, i + 1, n)
  }

  predicate MembersSurvive(allowed: bool, e: Entries)
    decreases EntriesWeight(e), 1, 0
  {
    e.Entry? ==> Survives(allowed, e.value) && MembersSurvive(allowed, e.rest)
  }

  /** The writer keeps nulls, or the reader can do without them. */
  predicate Sent(f: Features, o: Options, v: Value) {
    o.dropNullPlaceholders ==> Survives(f.allowDroppedNullPlaceholders, v)
  }

  predicate ItemsSent(f: Features, o: Options, e: Entries, i: nat, n: nat) {
    o.dropNullPlaceholders ==> ItemsSurvive(f.allowDroppedNullPlaceholders, e, i, n)
  }

  predicate MembersSent(f: Features, o: Options, e: Entries) {
    o.dropNullPlaceholders ==> MembersSurvive(f.allowDroppedNullPlaceholders, e)
  }

  /** Nothing is written for the value. */
  predicate Omitted(o: Options, v: Value) { o.dropNullPlaceholders && v.Null? }

  lemma {:induction false} FoundIsReadable(e: Entries, k: Key)
    requires EntriesReadable(e)
    ensures Find(e, k).Some? ==> Readable(Find(e, k).value)
  {
    if e.Entry? { FoundIsReadable(e.rest, k); }
  }

  lemma {:induction false} SpanNeedsEntry(e: Entries)
    ensures Span(e) > 0 ==> EntriesNesting(e) >= 1
  {
    if e.Entry? && e.rest.Entry? { SpanNeedsEntry(e.rest); }
  }

  lemma ElementFacts(e: Entries, i: nat)
    requires EntriesWellFormed(e) && EntriesReadable(e) && i < Span(e)
    ensures Writable(At(e, i)) && Nesting(At(e, i)) <= EntriesNesting(e)
  {
    FoundIsWellFormed(e, Index(i));
    FoundIsReadable(e, Index(i));
    FoundNesting(e, Index(i));
    SpanNeedsEntry(e);
  }

  // ----- tokens --------------------------------------------------------------------------

  /** What may follow a value in written text. */
  predicate Delimiter(c: char) {
    c == NUL || c == ',' || c == ']' || c == '}' || IsSpace(c)
  }

  /** What may follow a dropped null. */
  predicate Closer(c: char) { c == ',' || c == ']' || c == '}' }

  /** A token that starts right at the cursor and is not a comment is the next token. */
  lemma TokenHere(f: Features, doc: string, p: nat)
    requires p < |doc| && !IsSpace(doc[p])
    ensures ReadToken(f, doc, p).start == p
    ensures Lex(f, doc, doc[p], p + 1).ok && Lex(f, doc, doc[p], p + 1).kind != CommentToken ==>
      NextToken(f, doc, p) == ReadToken(f, doc, p)
        == Token(Lex(f, doc, doc[p], p + 1).kind, p, Lex(f, doc, doc[p], p + 1).next)
  {
  }

  lemma PunctuationHere(f: Features, doc: string, p: nat, c: char)
    requires TextAt(doc, p, [c]) && Punctuation(c)
    ensures NextToken(f, doc, p) == ReadToken(f, doc, p) == Token(PunctuationType(c), p, p + 1)
  {
    TextAtChar(doc, p, [c], 0);
    TokenHere(f, doc, p);
  }

  lemma {:induction false} SkipAllDigits(doc: string, p: nat, digits: string)
    requires AllDigits(digits) && TextAt(doc, p, digits)
    requires !IsDigit(CharAt(doc, p + |digits|))
    ensures SkipDigits(doc, p) == p + |digits|
    decreases |digits|
  {
    if digits != [] {
      TextAtChar(doc, p, digits, 0);
      assert digits == digits[..1] + digits[1..];
      TextAtSplit(doc, p, digits[..1], digits[1..]);
      SkipAllDigits(doc, p + 1, digits[1..]);
    }
  }

  lemma NumberEndHere(doc: string, p: nat, digits: string)
    requires AllDigits(digits) && TextAt(doc, p, digits)
    requires Delimiter(CharAt(doc, p + |digits|))
    ensures NumberEnd(doc, p) == p + |digits|
  {
    SkipAllDigits(doc, p, digits);
  }

  lemma IntTextShape(n: int) returns (c: char, digits: string)
    ensures IntText(n) == [c] + digits && AllDigits(digits)
    ensures IsDigit(c) || (c == '-' && digits != [])
  {
    var text := IntText(n);
    c, digits := text[0], text[1..];
  }

  lemma NumberHere(f: Features, doc: string, p: nat, n: int)
    requires TextAt(doc, p, IntText(n)) && Delimiter(CharAt(doc, p + |IntText(n)|))
    ensures NextToken(f, doc, p) == Token(NumberToken, p, p + |IntText(n)|)
  {
    var c, digits := IntTextShape(n);
    NumberLexeme(f, doc, p, c, digits);
  }

  lemma NumberLexeme(f: Features, doc: string, p: nat, c: char, digits: string)
    requires AllDigits(digits) && (IsDigit(c) || (c == '-' && digits != []))
    requires TextAt(doc, p, [c] + digits) && Delimiter(CharAt(doc, p + 1 + |digits|))
    ensures NextToken(f, doc, p) == ReadToken(f, doc, p) == Token(NumberToken, p, p + 1 + |digits|)
  {
    TextAtSplit(doc, p, [c], digits);
    TextAtChar(doc, p, [c], 0);
    NumberEndHere(doc, p + 1, digits);
    if digits != [] { TextAtChar(doc, p + 1, digits, 0); }
    assert c == '-' ==> !StartsInfinity(f, doc, p + 1);
    TokenHere(f, doc, p);
  }

  lemma StringHere(f: Features, doc: string, p: nat, s: string)
    requires TextAt(doc, p, Quoted(s))
    ensures var t := Token(StringToken, p, p + |Quoted(s)|);
      NextToken(f, doc, p) == ReadToken(f, doc, p) == t && DecodeString(doc, t) == Decoded(s)
  {
    hide ReadToken, NextToken, ScanString, DecodeChars;
    QuotingRoundTrip(doc, p, s);
    QuoteLexeme(f, doc, p, p + |Quoted(s)|);
  }

  lemma QuoteLexeme(f: Features, doc: string, p: nat, end: nat)
    requires p < |doc| && doc[p] == QUOTE && ScanString(doc, p + 1, QUOTE) == Scan(true, end)
    ensures NextToken(f, doc, p) == ReadToken(f, doc, p) == Token(StringToken, p, end)
  {
    TokenHere(f, doc, p);
  }

  lemma WordHere(f: Features, doc: string, p: nat, first: char, tail: string)
    requires TextAt(doc, p, [first] + tail)
    ensures doc[p] == first && Match(doc, p + 1, tail) == Scan(true, p + 1 + |tail|)
  {
    TextAtSplit(doc, p, [first], tail);
    TextAtChar(doc, p, [first], 0);
  }

  lemma LiteralHere(f: Features, doc: string, p: nat, v: Value, o: Options)
    requires v.Null? || v.Bool?
    requires !Omitted(o, v) && TextAt(doc, p, FastText(o, v))
    ensures var t := NextToken(f, doc, p);
      Literal(t.kind) == Some(v) && t.end == p + |FastText(o, v)|
  {
    hide NextToken, ReadToken, Match, TextAt;
    if v.Null? {
      assert FastText(o, v) == ['n'] + "ull";
      WordHere(f, doc, p, 'n', "ull");
    } else if v.b {
      assert FastText(o, v) == ['t'] + "rue";
      WordHere(f, doc, p, 't', "rue");
    } else {
      assert FastText(o, v) == ['f'] + "alse";
      WordHere(f, doc, p, 'f', "alse");
    }
    TokenHere(f, doc, p);
  }

  // ----- values --------------------------------------------------------------------------

  /** The outcome `r`, or an exception when `nesting` more levels do not fit. */
  function Bounded(f: Features, depth: int, nesting: nat, r: Outcome): Outcome {
    if depth + nesting <= f.stackLimit then r else Thrown
  }

  predicate StartsValue(c: char) {
    c == QUOTE || c == '[' || c == '{' || c == '-' || IsDigit(c) || c == 'n' || c == 't' || c == 'f'
  }

  lemma FirstChar(o: Options, v: Value)
    requires !Omitted(o, v) && Readable(v)
    ensures FastText(o, v) != [] && StartsValue(FastText(o, v)[0])
  {
    match v
    case Int(i) => var c, digits := IntTextShape(i);
    case UInt(u) => var c, digits := IntTextShape(u);
    case _ =>
  }

  /** The reader's whole outcome on the text of `v` at the cursor. */
  ghost predicate ReadsBack(f: Features, o: Options, doc: string, st: State, prior: Value, v: Value)
    requires st.cur <= |doc|
  {
    ReadValue(f, doc, st, prior)
    == Bounded(f, st.depth, Nesting(Normalize(v)), Done(true, st.(cur := st.cur + |FastText(o, v)|), Normalize(v)))
  }

  /** Reading behind the text of a value rebuilds its normal form and stops at the text's end,
      unless the nesting exceeds what the depth counter leaves. */
  lemma {:induction false} ReadBack(f: Features, o: Options, doc: string, st: State, prior: Value, v: Value)
    requires Sent(f, o, v) && Writable(v)
    requires TextAt(doc, st.cur, FastText(o, v)) && Delimiter(CharAt(doc, st.cur + |FastText(o, v)|))
    requires Omitted(o, v) ==> Closer(CharAt(doc, st.cur))
    ensures ReadsBack(f, o, doc, st, prior, v)
    decreases Weight(v), 2, 0
  {
    if v.Array? {
      ReadBackArray(f, o, doc, st, prior, v);
    } else if v.Object? {
      ReadBackObject(f, o, doc, st, prior, v);
    } else if v.Int? || v.UInt? {
      ReadBackInteger(f, o, doc, st, prior, v);
    } else if v.String? {
      ReadBackString(f, o, doc, st, prior, v);
    } else if Omitted(o, v) {
      ReadBackNothing(f, doc, st, prior);
    } else {
      LiteralHere(f, doc, st.cur, v, o);
      StepLiteral(f, doc, st, prior, NextToken(f, doc, st.cur), v);
    }
  }

  /** Where nothing is written for null the reader finds the next separator, takes it for null and
      leaves it to be read again. */
  lemma ReadBackNothing(f: Features, doc: string, st: State, prior: Value)
    requires f.allowDroppedNullPlaceholders && st.cur <= |doc| && Closer(CharAt(doc, st.cur))
    ensures ReadValue(f, doc, st, prior) == Bounded(f, st.depth, 1, Done(true, st, Null))
  {
    hide NextToken;
    assert doc[st.cur..st.cur + 1] == [doc[st.cur]];
    PunctuationHere(f, doc, st.cur, doc[st.cur]);
  }

  // One step of readValue for each kind of token.

  lemma StepLiteral(f: Features, doc: string, st: State, prior: Value, t: Token, v: Value)
    requires st.cur <= |doc| && t == NextToken(f, doc, st.cur) && Literal(t.kind) == Some(v)
    ensures ReadValue(f, doc, st, prior) == Bounded(f, st.depth, 1, Done(true, st.(cur := t.end), v))
  {
  }

  lemma StepNumber(f: Features, doc: string, st: State, prior: Value, t: Token, v: Value)
    requires st.cur <= |doc| && t == NextToken(f, doc, st.cur) && t.kind == NumberToken
    requires IntegerOf(TokenText(doc, t)) == Some(v)
    ensures ReadValue(f, doc, st, prior) == Bounded(f, st.depth, 1, Done(true, st.(cur := t.end), v))
  {
  }

  lemma StepString(f: Features, doc: string, st: State, prior: Value, t: Token, s: string)
    requires st.cur <= |doc| && t == NextToken(f, doc, st.cur) && t.kind == StringToken
    requires DecodeString(doc, t) == Decoded(s) && |s| <= MAX_STRING
    ensures ReadValue(f, doc, st, prior) == Bounded(f, st.depth, 1, Done(true, st.(cur := t.end), String(s)))
  {
  }

  lemma StepArray(f: Features, doc: string, st: State, prior: Value, t: Token)
    requires st.cur <= |doc| && t == NextToken(f, doc, st.cur) && t.kind == ArrayBegin
    ensures ReadValue(f, doc, st, prior)
         == Bounded(f, st.depth, 1, Leave(ReadArray(f, doc, st.(cur := t.end, depth := st.depth + 1))))
  {
    hide ReadMembers, ReadArray, NextToken;
  }

  lemma StepObject(f: Features, doc: string, st: State, prior: Value, t: Token)
    requires st.cur <= |doc| && t == NextToken(f, doc, st.cur) && t.kind == ObjectBegin
    ensures ReadValue(f, doc, st, prior)
         == Bounded(f, st.depth, 1, Leave(ReadMembers(f, doc, st.(cur := t.end, depth := st.depth + 1), Nil, [])))
  {
    hide ReadMembers, ReadArray, NextToken;
  }

  lemma StepElement(f: Features, doc: string, st: State, e: Entries, i: nat, r: Outcome)
    requires st.cur <= |doc| && i <= MAX_INT
    requires r == ReadValue(f, doc, st, Resolve(e, Index(i)))
    ensures r.Thrown? ==> ReadElements(f, doc, st, e, i) == Thrown
    ensures r.Done? && r.ok ==> var e1, t := Put(e, Index(i), r.value), ReadToken(f, doc, r.st.cur);
      && (t.kind == ArrayEnd ==> ReadElements(f, doc, st, e, i) == Done(true, r.st.(cur := t.end), Array(e1)))
      && (t.kind == ArraySeparator ==>
            ReadElements(f, doc, st, e, i) == ReadElements(f, doc, r.st.(cur := t.end), e1, i + 1))
  {
  }

  // ----- scalars -------------------------------------------------------------------------

  lemma ReadBackInteger(f: Features, o: Options, doc: string, st: State, prior: Value, v: Value)
    requires (v.Int? || v.UInt?) && WellFormed(v)
    requires TextAt(doc, st.cur, FastText(o, v)) && Delimiter(CharAt(doc, st.cur + |FastText(o, v)|))
    ensures ReadsBack(f, o, doc, st, prior, v)
  {
    hide ReadValue, NextToken, IntText, IntegerOf;
    var n := if v.Int? then v.i else v.u;
    NumberHere(f, doc, st.cur, n);
    IntegerRoundTrip(n);
    StepNumber(f, doc, st, prior, NextToken(f, doc, st.cur), Tagged(n, n < 0));
  }

  lemma ReadBackString(f: Features, o: Options, doc: string, st: State, prior: Value, v: Value)
    requires v.String? && WellFormed(v)
    requires TextAt(doc, st.cur, FastText(o, v))
    ensures ReadsBack(f, o, doc, st, prior, v)
  {
    hide ReadValue, NextToken, Quoted, DecodeString;
    StringHere(f, doc, st.cur, v.text);
    StepString(f, doc, st, prior, NextToken(f, doc, st.cur), v.text);
  }

  // ----- arrays --------------------------------------------------------------------------

  lemma {:induction false} ReadBackArray(f: Features, o: Options, doc: string, st: State, prior: Value, v: Value)
    requires v.Array? && Sent(f, o, v) && Writable(v)
    requires TextAt(doc, st.cur, FastText(o, v))
    ensures ReadsBack(f, o, doc, st, prior, v)
    decreases Weight(v), 1, 0
  {
    hide ReadValue, ReadArray, ReadElements, ItemsText, FastText, Dense, Normalize, NextToken, TextAt, Sent, ItemsSent;
    hide ArraySize, Span, At, Find, WellFormed, EntriesWellFormed, Readable, EntriesReadable, Nesting, EntriesNesting, Omitted;
    var e := v.entries;
    var n := ArraySize(e);
    ArrayFacts(f, o, e);
    var items := ItemsText(o, e, 0, n);
    SplitThree(doc, st.cur, "[", items, "]");
    OpenBracket(f, doc, st, prior);
    var inner := st.(cur := st.cur + 1, depth := st.depth + 1);
    FirstItem(o, e, n);
    if n == 0 {
      assert items + "]" == "]";
      EmptyArray(f, doc, inner);
    } else {
      ArrayStarts(f, o, doc, inner, e, n);
      ReadBackItems(f, o, doc, inner, Nil, e, 0, n);
    }
  }

  lemma ArrayFacts(f: Features, o: Options, e: Entries)
    requires Writable(Array(e)) && Sent(f, o, Array(e))
    ensures var n := ArraySize(e);
      && n == Span(e) <= MAX_INT + 1
      && (n == 1 ==> !Omitted(o, At(e, 0)))
      && ItemsSent(f, o, e, 0, n) && EntriesWellFormed(e) && EntriesReadable(e)
      && FastText(o, Array(e)) == "[" + ItemsText(o, e, 0, n) + "]"
      && Normalize(Array(e)) == Array(Dense(e, 0, n))
      && Nesting(Array(Dense(e, 0, n))) == 1 + EntriesNesting(Dense(e, 0, n))
      && EntriesNesting(Nil) == 0 && Append(Nil, Dense(e, 0, n)) == Dense(e, 0, n)
      && EntriesWeight(e) < Weight(Array(e)) && AllBelow(Nil, Index(0))
  {
    SmallSize(e);
  }

  lemma SmallSize(e: Entries)
    requires Span(e) <= MAX_INT + 1
    ensures ArraySize(e) == Span(e)
  {
  }

  lemma OpenBracket(f: Features, doc: string, st: State, prior: Value)
    requires TextAt(doc, st.cur, "[")
    ensures ReadValue(f, doc, st, prior)
         == Bounded(f, st.depth, 1, Leave(ReadArray(f, doc, st.(cur := st.cur + 1, depth := st.depth + 1))))
  {
    PunctuationHere(f, doc, st.cur, '[');
    StepArray(f, doc, st, prior, Token(ArrayBegin, st.cur, st.cur + 1));
  }

  lemma EmptyArray(f: Features, doc: string, st: State)
    requires TextAt(doc, st.cur, "]")
    ensures ReadArray(f, doc, st) == Done(true, st.(cur := st.cur + 1), Array(Nil))
  {
    PunctuationHere(f, doc, st.cur, ']');
    TextAtChar(doc, st.cur, "]", 0);
  }

  lemma FirstItem(o: Options, e: Entries, n: nat)
    ensures n == 0 ==> ItemsText(o, e, 0, n) == "" && Dense(e, 0, n) == Nil
    ensures n > 0 ==> ItemsText(o, e, 0, n) == FastText(o, At(e, 0)) + ItemsText(o, e, 1, n)
  {
  }

  /** A non-empty array's text is neither white space nor a closing bracket. */
  lemma ArrayStarts(f: Features, o: Options, doc: string, st: State, e: Entries, n: nat)
    requires EntriesWellFormed(e) && EntriesReadable(e) && 0 < n <= Span(e)
    requires n == 1 ==> !Omitted(o, At(e, 0))
    requires TextAt(doc, st.cur, FastText(o, At(e, 0)) + ItemsText(o, e, 1, n) + "]")
    ensures ReadArray(f, doc, st) == ReadElements(f, doc, st, Nil, 0)
  {
    hide ReadArray, ReadElements, ReadToken, FastText, ItemsText, At, Find, TextAt, EntriesWellFormed, EntriesReadable;
    var text := FastText(o, At(e, 0));
    ElementFacts(e, 0);
    SplitThree(doc, st.cur, text, ItemsText(o, e, 1, n), "]");
    if Omitted(o, At(e, 0)) {
      assert text == "" by { NullIsOmitted(o); }
      BehindItem(f, o, doc, st.cur, e, 0, n);
      SeparatorStays(f, doc, st.cur);
    } else {
      FirstChar(o, At(e, 0));
      TextAtChar(doc, st.cur, text, 0);
    }
    NotEmptyArray(f, doc, st);
  }

  lemma NullIsOmitted(o: Options)
    ensures o.dropNullPlaceholders ==> FastText(o, Null) == ""
  {
  }

  lemma NotEmptyArray(f: Features, doc: string, st: State)
    requires st.cur <= |doc| && SkipSpaces(doc, st.cur) == st.cur && CharAt(doc, st.cur) != ']'
    ensures ReadArray(f, doc, st) == ReadElements(f, doc, st, Nil, 0)
  {
    hide ReadElements, ReadToken;
  }

  lemma SeparatorStays(f: Features, doc: string, p: nat)
    requires p <= |doc| && ReadToken(f, doc, p) == Token(ArraySeparator, p, p + 1)
    ensures SkipSpaces(doc, p) == p && CharAt(doc, p) != ']'
  {
  }

  /** What stands behind element i: the next comma or the closing bracket. */
  lemma BehindItem(f: Features, o: Options, doc: string, q: nat, e: Entries, i: nat, n: nat)
    requires i < n && TextAt(doc, q, ItemsText(o, e, i + 1, n) + "]")
    ensures Delimiter(CharAt(doc, q)) && Closer(CharAt(doc, q))
    ensures i + 1 == n ==> ReadToken(f, doc, q) == Token(ArrayEnd, q, q + 1) && ItemsText(o, e, i + 1, n) == ""
    ensures i + 1 < n ==> ReadToken(f, doc, q) == Token(ArraySeparator, q, q + 1)
    ensures i + 1 < n ==> TextAt(doc, q + 1, FastText(o, At(e, i + 1)) + ItemsText(o, e, i + 2, n) + "]")
    ensures i + 1 < n ==> |ItemsText(o, e, i + 1, n)| == 1 + |FastText(o, At(e, i + 1))| + |ItemsText(o, e, i + 2, n)|
  {
    hide FastText, ReadToken, NextToken;
    if i + 1 == n {
      assert ItemsText(o, e, i + 1, n) + "]" == "]";
      PunctuationHere(f, doc, q, ']');
      TextAtChar(doc, q, "]", 0);
    } else {
      SplitFour(doc, q, ",", FastText(o, At(e, i + 1)), ItemsText(o, e, i + 2, n), "]");
      PunctuationHere(f, doc, q, ',');
      TextAtChar(doc, q, ",", 0);
    }
  }

  lemma {:induction false} ReadBackItems(f: Features, o: Options, doc: string, st: State, acc: Entries, e: Entries, i: nat, n: nat)
    requires ItemsSent(f, o, e, i, n) && EntriesWellFormed(e) && EntriesReadable(e)
    requires i < n <= Span(e) <= MAX_INT + 1 && AllBelow(acc, Index(i))
    requires TextAt(doc, st.cur, FastText(o, At(e, i)) + ItemsText(o, e, i + 1, n) + "]")
    ensures ReadElements(f, doc, st, acc, i)
         == Bounded(f, st.depth, EntriesNesting(Dense(e, i, n)),
                    Done(true, st.(cur := st.cur + |FastText(o, At(e, i))| + |ItemsText(o, e, i + 1, n)| + 1),
                         Array(Append(acc, Dense(e, i, n)))))
    decreases EntriesWeight(e), 3, n - i
  {
    hide ReadValue, ReadElements, FastText, ItemsText, Normalize, Dense, ReadToken, Append, EntriesNesting;
    hide Put, At, TextAt, Delimiter, CharAt, WellFormed, EntriesWellFormed, Readable, EntriesReadable, Span, AllBelow, Nesting, Find;
    hide Sent, ItemsSent, Omitted, Closer;
    NextItemSent(f, o, e, i, n);
    var text := FastText(o, At(e, i));
    var q := st.cur + |text|;
    SplitThree(doc, st.cur, text, ItemsText(o, e, i + 1, n), "]");
    ElementFacts(e, i);
    BehindItem(f, o, doc, q, e, i, n);
    ReadBack(f, o, doc, st, Resolve(acc, Index(i)), At(e, i));
    var w := Normalize(At(e, i));
    StepElement(f, doc, st, acc, i, ReadValue(f, doc, st, Resolve(acc, Index(i))));
    PutAtEnd(acc, Index(i), w);
    DenseStep(acc, e, i, n);
    if i + 1 < n && st.depth + Nesting(w) <= f.stackLimit {
      AllBelowExtended(acc, Index(i), w, Index(i + 1));
      ReadBackItems(f, o, doc, st.(cur := q + 1), Append(acc, Entry(Index(i), w, Nil)), e, i + 1, n);
    }
  }

  lemma NextItemSent(f: Features, o: Options, e: Entries, i: nat, n: nat)
    requires ItemsSent(f, o, e, i, n) && i < n
    ensures Sent(f, o, At(e, i)) && ItemsSent(f, o, e, i + 1, n)
    ensures Omitted(o, At(e, i)) ==> FastText(o, At(e, i)) == ""
  {
  }

  lemma DenseStep(acc: Entries, e: Entries, i: nat, n: nat)
    requires i < n
    ensures var w := Normalize(At(e, i));
      && Append(acc, Dense(e, i, n)) == Append(Append(acc, Entry(Index(i), w, Nil)), Dense(e, i + 1, n))
      && EntriesNesting(Dense(e, i, n)) == Max(Nesting(w), EntriesNesting(Dense(e, i + 1, n)))
      && (i + 1 == n ==> EntriesNesting(Dense(e, i, n)) == Nesting(w)
                         && Append(acc, Dense(e, i, n)) == Append(acc, Entry(Index(i), w, Nil)))
  {
    AppendAssociative(acc, Entry(Index(i), Normalize(At(e, i)), Nil), Dense(e, i + 1, n));
  }

  // ----- objects -------------------------------------------------------------------------

  lemma {:induction false} ReadBackObject(f: Features, o: Options, doc: string, st: State, prior: Value, v: Value)
    requires v.Object? && Sent(f, o, v) && Writable(v)
    requires TextAt(doc, st.cur, FastText(o, v))
    ensures ReadsBack(f, o, doc, st, prior, v)
    decreases Weight(v), 1, 0
  {
    hide ReadValue, ReadMembers, MembersText, NormalizeMembers, PunctuationType, NextToken;
    var e := v.entries;
    SplitThree(doc, st.cur, "{", MembersText(o, e, true), "}");
    OpenBrace(f, doc, st, prior);
    var inner := st.(cur := st.cur + 1, depth := st.depth + 1);
    FirstMember(o, e);
    if e.Nil? {
      assert MembersText(o, e, true) + "}" == "}";
      EmptyObject(f, doc, inner);
    } else {
      ReadBackMembers(f, o, doc, inner, Nil, e, []);
    }
  }

  lemma OpenBrace(f: Features, doc: string, st: State, prior: Value)
    requires TextAt(doc, st.cur, "{")
    ensures ReadValue(f, doc, st, prior)
         == Bounded(f, st.depth, 1, Leave(ReadMembers(f, doc, st.(cur := st.cur + 1, depth := st.depth + 1), Nil, [])))
  {
    PunctuationHere(f, doc, st.cur, '{');
    StepObject(f, doc, st, prior, Token(ObjectBegin, st.cur, st.cur + 1));
  }

  lemma EmptyObject(f: Features, doc: string, st: State)
    requires TextAt(doc, st.cur, "}")
    ensures ReadMembers(f, doc, st, Nil, []) == Done(true, st.(cur := st.cur + 1), Object(Nil))
  {
    PunctuationHere(f, doc, st.cur, '}');
  }

  lemma FirstMember(o: Options, e: Entries)
    ensures e.Nil? ==> MembersText(o, e, true) == "" && NormalizeMembers(e) == Nil
    ensures e.Entry? ==> MembersText(o, e, true) == MemberAndRest(o, e)
    ensures e.Entry? ==> MembersText(o, e, false) == "," + MemberAndRest(o, e)
  {
    if e.Entry? { MembersFront(o, e); }
  }

  /** Name, colon and value text as readObject meets them. */
  lemma MemberHere(f: Features, o: Options, doc: string, p: nat, name: string, value: string, tail: string)
    requires TextAt(doc, p, Quoted(name) + Colon(o) + value + tail)
    ensures var pc := p + |Quoted(name)|;
      && ReadToken(f, doc, p) == Token(StringToken, p, pc)
      && DecodeString(doc, Token(StringToken, p, pc)) == Decoded(name)
      && ReadToken(f, doc, pc) == Token(MemberSeparator, pc, pc + 1)
      && TextAt(doc, pc + |Colon(o)|, value + tail)
      && (o.yamlCompatibility ==> doc[pc + 1] == ' ')
  {
    hide ReadToken, NextToken, DecodeString, Quoted;
    var pc := p + |Quoted(name)|;
    SplitFour(doc, p, Quoted(name), Colon(o), value, tail);
    StringHere(f, doc, p, name);
    SplitThree(doc, pc, Colon(o), value, tail);
    TextAtSplit(doc, pc, ":", Colon(o)[1..]);
    PunctuationHere(f, doc, pc, ':');
    if o.yamlCompatibility { TextAtChar(doc, pc, Colon(o), 1); }
  }

  lemma SpaceBeforeValue(f: Features, doc: string, st: State, prior: Value)
    requires st.cur < |doc| && doc[st.cur] == ' '
    ensures ReadValue(f, doc, st, prior) == ReadValue(f, doc, st.(cur := st.cur + 1), prior)
  {
    SpaceBeforeToken(f, doc, st.cur);
    SameToken(f, doc, st, st.cur + 1, prior);
  }

  lemma SpaceBeforeToken(f: Features, doc: string, p: nat)
    requires p < |doc| && doc[p] == ' '
    ensures NextToken(f, doc, p) == NextToken(f, doc, p + 1)
  {
    hide Lex, SkipComments;
  }

  lemma SameToken(f: Features, doc: string, st: State, p: nat, prior: Value)
    requires st.cur <= |doc| && p <= |doc| && NextToken(f, doc, st.cur) == NextToken(f, doc, p)
    ensures ReadValue(f, doc, st, prior) == ReadValue(f, doc, st.(cur := p), prior)
  {
    hide NextToken, ReadMembers, ReadArray, ReadScalar;
  }

  lemma StepMember(f: Features, doc: string, st: State, e: Entries, last: string, t: Token, name: string, r: Outcome)
    requires st.cur <= |doc| && t == ReadToken(f, doc, st.cur) && t.kind == StringToken
    requires DecodeString(doc, t) == Decoded(name) && |name| < NAME_LIMIT
    requires ReadToken(f, doc, t.end) == Token(MemberSeparator, t.end, t.end + 1)
    requires Find(e, Name(name)) == None
    requires r == ReadValue(f, doc, st.(cur := t.end + 1), Null)
    ensures r.Thrown? ==> ReadMembers(f, doc, st, e, last) == Thrown
    ensures r.Done? && r.ok ==>
      ReadMembers(f, doc, st, e, last) == MemberEnd(f, doc, r.st, Put(e, Name(name), r.value), name)
  {
    hide ReadValue, MemberEnd, DecodeString, Find, ReadToken;
    assert StoredName(name) == Name(name);
    assert ReadMembers(f, doc, st, e, last) == ReadNamed(f, doc, st.(cur := t.end), e, t, name);
  }

  lemma StepMemberEnd(f: Features, doc: string, st: State, e: Entries, name: string, t: Token)
    requires st.cur <= |doc| && t == ReadToken(f, doc, st.cur)
    ensures t.kind == ObjectEnd ==> MemberEnd(f, doc, st, e, name) == Done(true, st.(cur := t.end), Object(e))
    ensures t.kind == ArraySeparator ==> MemberEnd(f, doc, st, e, name) == ReadMembers(f, doc, st.(cur := t.end), e, name)
  {
  }

  /** What stands behind a member: the next comma or the closing brace. */
  lemma BehindMember(f: Features, o: Options, doc: string, q: nat, e: Entries)
    requires TextAt(doc, q, MembersText(o, e, false) + "}")
    ensures Delimiter(CharAt(doc, q)) && Closer(CharAt(doc, q))
    ensures e.Nil? ==> ReadToken(f, doc, q) == Token(ObjectEnd, q, q + 1) && MembersText(o, e, false) == ""
    ensures e.Entry? ==>
      && ReadToken(f, doc, q) == Token(ArraySeparator, q, q + 1)
      && TextAt(doc, q + 1, MemberAndRest(o, e) + "}")
      && |MembersText(o, e, false)| == 1 + |MemberAndRest(o, e)|
  {
    hide FastText, ReadToken, NextToken, MemberAndRest;
    FirstMember(o, e);
    if e.Nil? {
      assert MembersText(o, e, false) + "}" == "}";
      PunctuationHere(f, doc, q, '}');
      TextAtChar(doc, q, "}", 0);
    } else {
      SplitThree(doc, q, ",", MemberAndRest(o, e), "}");
      PunctuationHere(f, doc, q, ',');
      TextAtChar(doc, q, ",", 0);
    }
  }

  /** The value of the first member, read from behind the colon. */
  lemma {:induction false} ReadBackMember(f: Features, o: Options, doc: string, st: State, e: Entries)
    requires e.Entry? && Sent(f, o, e.value) && Writable(e.value)
    requires st.cur < |doc| && (o.yamlCompatibility ==> doc[st.cur] == ' ')
    requires var p := st.cur + |Colon(o)| - 1;
      TextAt(doc, p, FastText(o, e.value)) && Delimiter(CharAt(doc, p + |FastText(o, e.value)|))
      && (Omitted(o, e.value) ==> Closer(CharAt(doc, p)))
    ensures ReadValue(f, doc, st, Null)
         == Bounded(f, st.depth, Nesting(Normalize(e.value)),
                    Done(true, st.(cur := st.cur + |Colon(o)| - 1 + |FastText(o, e.value)|), Normalize(e.value)))
    decreases EntriesWeight(e), 3, 0
  {
    hide ReadValue, FastText, Normalize;
    if o.yamlCompatibility { SpaceBeforeValue(f, doc, st, Null); }
    ReadBack(f, o, doc, st.(cur := st.cur + |Colon(o)| - 1), Null, e.value);
  }

  lemma {:induction false} ReadBackMembers(f: Features, o: Options, doc: string, st: State, acc: Entries, e: Entries, last: string)
    requires e.Entry? && MembersSent(f, o, e)
    requires EntriesWellFormed(e) && EntriesReadable(e) && NameKeys(e) && Sorted(e)
    requires AllBelow(acc, e.key)
    requires TextAt(doc, st.cur, MemberAndRest(o, e) + "}")
    ensures ReadMembers(f, doc, st, acc, last)
         == Bounded(f, st.depth, EntriesNesting(NormalizeMembers(e)),
                    Done(true, st.(cur := st.cur + |MemberAndRest(o, e)| + 1), Object(Append(acc, NormalizeMembers(e)))))
    decreases EntriesWeight(e), 4, 0
  {
    hide ReadValue, ReadMembers, MemberEnd, FastText, MembersText, Normalize, NormalizeMembers, ReadToken, DecodeString;
    hide Quoted, Colon, Append, EntriesNesting, Put, TextAt, Delimiter, CharAt, WellFormed, Readable, AllBelow, Nesting, Find;
    hide Sent, MembersSent, Omitted, Closer;
    NextMemberSent(f, o, e);
    var name, value, rest := e.key.name, FastText(o, e.value), MembersText(o, e.rest, false);
    var pc := st.cur + |Quoted(name)|;
    var pv := pc + |Colon(o)|;
    var q := pv + |value|;
    MemberTexts(f, o, doc, st.cur, e);
    var w := Normalize(e.value);
    ReadBackMember(f, o, doc, st.(cur := pc + 1), e);
    AllBelowMisses(acc, e.key);
    StepMember(f, doc, st, acc, last, Token(StringToken, st.cur, pc), name, ReadValue(f, doc, st.(cur := pc + 1), Null));
    PutAtEnd(acc, e.key, w);
    MembersStep(acc, e);
    if st.depth + Nesting(w) <= f.stackLimit {
      var acc1 := Append(acc, Entry(e.key, w, Nil));
      StepMemberEnd(f, doc, st.(cur := q), acc1, name, ReadToken(f, doc, q));
      if e.rest.Entry? {
        NextAbove(acc, e, w);
        ReadBackMembers(f, o, doc, st.(cur := q + 1), acc1, e.rest, name);
      }
    }
  }

  lemma NextMemberSent(f: Features, o: Options, e: Entries)
    requires e.Entry? && MembersSent(f, o, e)
    ensures Sent(f, o, e.value) && MembersSent(f, o, e.rest)
    ensures Omitted(o, e.value) ==> FastText(o, e.value) == ""
  {
  }

  lemma NextAbove(acc: Entries, e: Entries, w: Value)
    requires e.Entry? && e.rest.Entry? && Sorted(e) && AllBelow(acc, e.key)
    ensures AllBelow(Append(acc, Entry(e.key, w, Nil)), e.rest.key)
  {
    AllBelowExtended(acc, e.key, w, e.rest.key);
  }

  /** All that the text of a member list says about the tokens at its front. */
  lemma MemberTexts(f: Features, o: Options, doc: string, p: nat, e: Entries)
    requires e.Entry? && e.key.Name? && TextAt(doc, p, MemberAndRest(o, e) + "}")
    ensures var pc := p + |Quoted(e.key.name)|;
      var q := pc + |Colon(o)| + |FastText(o, e.value)|;
      && ReadToken(f, doc, p) == Token(StringToken, p, pc)
      && DecodeString(doc, Token(StringToken, p, pc)) == Decoded(e.key.name)
      && ReadToken(f, doc, pc) == Token(MemberSeparator, pc, pc + 1)
      && pc + 1 < |doc| && (o.yamlCompatibility ==> doc[pc + 1] == ' ')
      && |Colon(o)| >= 1
      && TextAt(doc, pc + |Colon(o)|, FastText(o, e.value))
      && Delimiter(CharAt(doc, q)) && Closer(CharAt(doc, q))
      && |MemberAndRest(o, e)| == q - p + |MembersText(o, e.rest, false)|
      && (e.rest.Nil? ==> ReadToken(f, doc, q) == Token(ObjectEnd, q, q + 1) && MembersText(o, e.rest, false) == "")
      && (e.rest.Entry? ==> ReadToken(f, doc, q) == Token(ArraySeparator, q, q + 1)
                            && TextAt(doc, q + 1, MemberAndRest(o, e.rest) + "}")
                            && |MembersText(o, e.rest, false)| == 1 + |MemberAndRest(o, e.rest)|)
  {
    hide ReadToken, DecodeString, Quoted, FastText, MembersText, Delimiter, Closer, CharAt;
    var name, value, rest := e.key.name, FastText(o, e.value), MembersText(o, e.rest, false);
    var pv := p + |Quoted(name)| + |Colon(o)|;
    CloseTail(Quoted(name), Colon(o), value, rest, "}");
    MemberHere(f, o, doc, p, name, value, rest + "}");
    TextAtSplit(doc, pv, value, rest + "}");
    BehindMember(f, o, doc, pv + |value|, e.rest);
  }

  lemma CloseTail(a: string, b: string, c: string, d: string, close: string)
    ensures a + b + c + d + close == a + b + c + (d + close)
  {
  }

  lemma MembersStep(acc: Entries, e: Entries)
    requires e.Entry?
    ensures var w := Normalize(e.value);
      && Append(acc, NormalizeMembers(e)) == Append(Append(acc, Entry(e.key, w, Nil)), NormalizeMembers(e.rest))
      && EntriesNesting(NormalizeMembers(e)) == Max(Nesting(w), EntriesNesting(NormalizeMembers(e.rest)))
      && (e.rest.Nil? ==> EntriesNesting(NormalizeMembers(e)) == Nesting(w)
                          && Append(acc, NormalizeMembers(e)) == Append(acc, Entry(e.key, w, Nil)))
  {
    AppendAssociative(acc, Entry(e.key, Normalize(e.value), Nil), NormalizeMembers(e.rest));
  }

  // ----- whole documents -----------------------------------------------------------------

  lemma {:induction false} DenseNesting(e: Entries, i: nat, n: nat)
    requires i <= n <= Span(e) && EntriesNestingKept(e)
    ensures EntriesNesting(Dense(e, i, n)) <= EntriesNesting(e)
    decreases n - i
  {
    if i < n {
      FoundKept(e, Index(i));
      FoundNesting(e, Index(i));
      SpanNeedsEntry(e);
      DenseNesting(e, i + 1, n);
    }
  }

  /** Normalising the children does not change their nesting. */
  predicate EntriesNestingKept(e: Entries) {
    e.Entry? ==> Nesting(Normalize(e.value)) == Nesting(e.value) && EntriesNestingKept(e.rest)
  }

  lemma {:induction false} FoundKept(e: Entries, k: Key)
    requires EntriesNestingKept(e)
    ensures Find(e, k).Some? ==> Nesting(Normalize(Find(e, k).value)) == Nesting(Find(e, k).value)
  {
    if e.Entry? { FoundKept(e.rest, k); }
  }

  lemma {:induction false} DenseHasItem(e: Entries, i: nat, j: nat, n: nat)
    requires i <= j < n
    ensures Nesting(Normalize(At(e, j))) <= EntriesNesting(Dense(e, i, n))
    decreases n - i
  {
    hide Normalize, At, Nesting;
    if i < j { DenseHasItem(e, i + 1, j, n); }
  }

  /** Every entry of a sorted index map is an element of the dense array. */
  lemma {:induction false} DenseHasAll(whole: Entries, e: Entries, n: nat)
    requires Sorted(whole) && IndexKeys(e) && Sorted(e) && EntriesNestingKept(e) && Span(e) <= n
    requires forall k :: Find(e, k).Some? ==> Find(whole, k) == Find(e, k)
    ensures EntriesNesting(e) <= EntriesNesting(Dense(whole, 0, n))
    decreases e
  {
    if e.Entry? {
      assert Find(e, e.key) == Some(e.value);
      LastIsHighest(e);
      DenseHasItem(whole, 0, e.key.index, n);
      forall k | Find(e.rest, k).Some? ensures Find(whole, k) == Find(e.rest, k) {
        if k == e.key { AllAboveMisses(k, e.rest); }
        assert Find(e, k) == Find(e.rest, k);
      }
      DenseHasAll(whole, e.rest, n);
    }
  }

  lemma {:induction false} LastIsHighest(e: Entries)
    requires e.Entry? && IndexKeys(e) && Sorted(e)
    ensures e.key.index < Span(e)
    decreases e
  {
    if e.rest.Entry? { LastIsHighest(e.rest); }
  }

  lemma {:induction false} MembersNesting(e: Entries)
    requires EntriesNestingKept(e)
    ensures EntriesNesting(NormalizeMembers(e)) == EntriesNesting(e)
  {
    if e.Entry? { MembersNesting(e.rest); }
  }

  /** The normal form is as deep as the tree. */
  lemma {:induction false} NormalNesting(v: Value)
    requires Writable(v)
    ensures Nesting(Normalize(v)) == Nesting(v)
    decreases v
  {
    hide Dense, NormalizeMembers, EntriesNesting, Find;
    if v.Array? {
      assert ArraySize(v.entries) == Span(v.entries);
      EntriesNormalNesting(v.entries);
      DenseNesting(v.entries, 0, Span(v.entries));
      DenseHasAll(v.entries, v.entries, Span(v.entries));
    } else if v.Object? {
      EntriesNormalNesting(v.entries);
      MembersNesting(v.entries);
    }
  }

  lemma {:induction false} EntriesNormalNesting(e: Entries)
    requires EntriesWellFormed(e) && EntriesReadable(e)
    ensures EntriesNestingKept(e)
    decreases e
  {
    if e.Entry? {
      NormalNesting(e.value);
      EntriesNormalNesting(e.rest);
    }
  }

  lemma EndHere(f: Features, doc: string, p: nat)
    requires p <= |doc| && (doc[p..] == "\n" || doc[p..] == "")
    ensures NextToken(f, doc, p) == Token(EndOfStream, |doc|, |doc|)
  {
    if p < |doc| { assert doc[p] == doc[p..][0]; }
    assert SkipSpaces(doc, p) == |doc|;
  }

  /** The round trip: for every tree without reals and null strings, parsing what FastWriter
      wrote succeeds without errors and rebuilds the tree's normal form exactly when the
      nesting is within the reader's limit (and the root is a container if the reader insists
      on one); beyond the limit the reader throws.  A writer that drops null placeholders is
      included as far as its text still tells the tree; `JsonDroppedNulls` proves that this is
      as far as it goes. */
  lemma WriteThenParse(f: Features, o: Options, v: Value, root: Value)
    requires Sent(f, o, v) && !Omitted(o, v) && Writable(v)
    ensures var text := Written(o, v);
      if Nesting(v) > f.stackLimit then Parse(f, text, root) == Thrown
      else if f.strictRoot && !v.Array? && !v.Object? then
        Parse(f, text, root) == Done(false, State(|text|, 0, [Error(Token(ErrorToken, 0, |text|), RootNotContainer, 0)]), Normalize(v))
      else Parse(f, text, root) == Done(true, State(|text|, 0, []), Normalize(v))
  {
    hide ReadValue, FastText, Normalize, Sent, Omitted, WellFormed, Readable, Nesting, NextToken;
    var text, body := Written(o, v), FastText(o, v);
    var tail := if o.omitEndingLineFeed then "" else "\n";
    assert text[0..|body|] == body;
    assert text[|body|..] == tail;
    assert tail != "" ==> text[|body|] == tail[0];
    ReadBack(f, o, text, State(0, 0, []), root, v);
    NormalNesting(v);
    EndHere(f, text, |body|);
    NormalKind(v);
  }

  lemma NormalKind(v: Value)
    ensures Normalize(v).Array? == v.Array? && Normalize(v).Object? == v.Object?
  {
  }
}
