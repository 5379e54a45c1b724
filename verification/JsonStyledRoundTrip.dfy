/** Reading back what StyledWriter wrote, or any other layout of the same tokens.

    The tokens of a value, with any white space around them, have one token stream.  So every
    layout parses as FastWriter's text does. */
module JsonStyledRoundTrip {
  import opened JsonValue
  import opened JsonNumber
  import opened JsonString
  import opened JsonScanner
  import opened JsonParser
  import opened JsonFastWriter
  import opened JsonRoundTrip
  import opened JsonTokenStream
  import opened JsonLayout
  import opened JsonStyledText

  // ----- token texts the readers recognize -------------------------------------------------------

  predicate IsNumber(tok: string) {
    tok != "" && AllDigits(tok[1..]) && (IsDigit(tok[0]) || (tok[0] == '-' && |tok| > 1))
  }

  predicate IsWord(tok: string) { tok == "null" || tok == "true" || tok == "false" }

  predicate IsMark(tok: string) { |tok| == 1 && Punctuation(tok[0]) }

  ghost predicate IsString(tok: string) { exists s: string :: tok == Quoted(s) }

  /** What may stand behind a value. */
  predicate Closes(tok: string) { tok == "," || tok == "]" || tok == "}" }

  /** Each text is one token; a number is not followed by anything that could lengthen it. */
  ghost predicate Lexable(toks: seq<string>) {
    toks == [] ||
    (&& (IsNumber(toks[0]) || IsWord(toks[0]) || IsMark(toks[0]) || IsString(toks[0]))
     && (IsNumber(toks[0]) && |toks| > 1 ==> Closes(toks[1]))
     && Lexable(toks[1..]))
  }

  function KindOf(tok: string): TokenType
    requires tok != ""
  {
    if Punctuation(tok[0]) then PunctuationType(tok[0])
    else if tok[0] == QUOTE then StringToken
    else if tok[0] == 'n' then NullToken
    else if tok[0] == 't' then TrueToken
    else if tok[0] == 'f' then FalseToken
    else NumberToken
  }

  lemma OneMore(tok: string, rest: seq<string>)
    requires IsNumber(tok) || IsWord(tok) || IsMark(tok) || IsString(tok)
    requires IsNumber(tok) && rest != [] ==> Closes(rest[0])
    requires Lexable(rest)
    ensures Lexable([tok] + rest)
  {
    assert ([tok] + rest)[1..] == rest;
  }

  lemma MarksAreMarks()
    ensures IsMark("[") && IsMark("]") && IsMark("{") && IsMark("}") && IsMark(",") && IsMark(":")
    ensures !IsNumber("[") && !IsNumber("]") && !IsNumber("{") && !IsNumber("}") && !IsNumber(",") && !IsNumber(":")
  {
  }

  lemma QuotedIsString(s: string)
    ensures IsString(Quoted(s)) && !IsNumber(Quoted(s))
  {
    assert Quoted(s)[0] == QUOTE;
  }

  lemma ScalarLexes(realText: nat -> string, v: Value)
    requires Readable(v) && !v.Array? && !v.Object?
    ensures var toks := ValueTokens(realText, v);
      |toks| == 1 && (IsNumber(toks[0]) || IsWord(toks[0]) || IsString(toks[0]))
  {
    match v {
      case Int(i) => var c, digits := IntTextShape(i);
      case UInt(u) => var c, digits := IntTextShape(u);
      case String(s) => QuotedIsString(s);
      case _ =>
    }
  }

  lemma {:induction false} ValueLexes(realText: nat -> string, v: Value, rest: seq<string>)
    requires Readable(v) && Lexable(rest) && (rest != [] ==> Closes(rest[0]))
    ensures Lexable(ValueTokens(realText, v) + rest)
    decreases Weight(v), 0, 0
  {
    hide Lexable, IsNumber, IsWord, IsMark, IsString;
    MarksAreMarks();
    if v.Array? {
      var items, closing := ItemTokens(realText, v.entries, 0, ArraySize(v.entries)), ["]"] + rest;
      OneMore("]", rest);
      ItemsLex(realText, v.entries, 0, ArraySize(v.entries), closing);
      OneMore("[", items + closing);
      Enclosed(["["], items, ["]"], rest);
    } else if v.Object? {
      var members, closing := MemberTokens(realText, v.entries, true), ["}"] + rest;
      OneMore("}", rest);
      MembersLex(realText, v.entries, true, closing);
      OneMore("{", members + closing);
      Enclosed(["{"], members, ["}"], rest);
    } else {
      ScalarLexes(realText, v);
      var toks := ValueTokens(realText, v);
      OneMore(toks[0], rest);
      assert toks == [toks[0]];
    }
  }

  lemma Enclosed(open: seq<string>, inner: seq<string>, close: seq<string>, rest: seq<string>)
    ensures open + inner + close + rest == open + (inner + (close + rest))
  {
  }

  lemma CommaLexes(first: bool, rest: seq<string>)
    requires Lexable(rest)
    ensures Lexable(Comma(first) + rest)
    ensures !first ==> (Comma(first) + rest)[0] == ","
  {
    hide Lexable;
    MarksAreMarks();
    if first { assert [] + rest == rest; } else { OneMore(",", rest); }
  }

  lemma {:induction false} ItemsLex(realText: nat -> string, e: Entries, i: nat, n: nat, closing: seq<string>)
    requires EntriesReadable(e) && Lexable(closing) && closing != [] && Closes(closing[0])
    ensures Lexable(ItemTokens(realText, e, i, n) + closing)
    ensures i > 0 || i >= n ==> Closes((ItemTokens(realText, e, i, n) + closing)[0])
    decreases EntriesWeight(e), 1, n - i
  {
    hide Lexable, ValueTokens, Find, Comma;
    assert [] + closing == closing;
    if i < n {
      var v, rest := ValueTokens(realText, At(e, i)), ItemTokens(realText, e, i + 1, n);
      assert Readable(At(e, i)) by { FoundIsReadable(e, Index(i)); }
      ItemsLex(realText, e, i + 1, n, closing);
      ValueLexes(realText, At(e, i), rest + closing);
      CommaLexes(i == 0, v + (rest + closing));
      Enclosed(Comma(i == 0), v, rest, closing);
    }
  }

  lemma {:induction false} MembersLex(realText: nat -> string, e: Entries, first: bool, closing: seq<string>)
    requires EntriesReadable(e) && Lexable(closing) && closing != [] && Closes(closing[0])
    ensures Lexable(MemberTokens(realText, e, first) + closing)
    ensures !first || e.Nil? ==> Closes((MemberTokens(realText, e, first) + closing)[0])
    decreases EntriesWeight(e), 1, 0
  {
    hide Lexable, ValueTokens, Comma, Quoted, IsNumber, IsString, IsMark;
    assert [] + closing == closing;
    if e.Entry? {
      MarksAreMarks();
      var name, v, rest := Quoted(KeyText(e.key)), ValueTokens(realText, e.value), MemberTokens(realText, e.rest, false);
      QuotedIsString(KeyText(e.key));
      MembersLex(realText, e.rest, false, closing);
      ValueLexes(realText, e.value, rest + closing);
      var t := v + (rest + closing);
      OneMore(":", t);
      OneMore(name, [":"] + t);
      CommaLexes(first, [name] + ([":"] + t));
      FourParts(Comma(first), name, ":", v, rest, closing);
    }
  }

  lemma FourParts(comma: seq<string>, name: string, colon: string, v: seq<string>, rest: seq<string>, closing: seq<string>)
    ensures comma + ([name, colon] + v) + rest + closing == comma + ([name] + ([colon] + (v + (rest + closing))))
  {
  }

  // ----- reading laid-out tokens -----------------------------------------------------------------

  lemma {:induction false} SkipsSpace(doc: string, p: nat, q: nat)
    requires p <= q <= |doc| && AllSpace(doc[p..q]) && (q < |doc| ==> !IsSpace(doc[q]))
    ensures SkipSpaces(doc, p) == q
    decreases q - p
  {
    if p < q {
      assert doc[p..q][0] == doc[p];
      assert doc[p + 1..q] == doc[p..q][1..];
      SkipsSpace(doc, p + 1, q);
    }
  }

  /** A token at the cursor whose text is one of the recognized ones. */
  lemma TokenAt(f: Features, doc: string, q: nat, tok: string)
    requires TextAt(doc, q, tok) && (IsNumber(tok) || IsWord(tok) || IsMark(tok) || IsString(tok))
    requires IsNumber(tok) ==> Delimiter(CharAt(doc, q + |tok|))
    ensures tok != "" && ReadToken(f, doc, q) == Token(KindOf(tok), q, q + |tok|)
  {
    if IsMark(tok) {
      assert tok == [tok[0]];
      PunctuationHere(f, doc, q, tok[0]);
    } else if IsNumber(tok) {
      assert tok == [tok[0]] + tok[1..];
      NumberLexeme(f, doc, q, tok[0], tok[1..]);
    } else if IsWord(tok) {
      WordTokenAt(f, doc, q, tok);
    } else {
      var s: string :| tok == Quoted(s);
      StringHere(f, doc, q, s);
    }
  }

  lemma WordTokenAt(f: Features, doc: string, q: nat, tok: string)
    requires TextAt(doc, q, tok) && IsWord(tok)
    ensures ReadToken(f, doc, q) == Token(KindOf(tok), q, q + |tok|)
  {
    assert tok == [tok[0]] + tok[1..];
    assert tok == "null" ==> tok[1..] == "ull";
    assert tok == "true" ==> tok[1..] == "rue";
    assert tok == "false" ==> tok[1..] == "alse";
    WordHere(f, doc, q, tok[0], tok[1..]);
    TokenHere(f, doc, q);
  }

  /** Behind a number stands white space, the end, or what closes a value. */
  lemma BehindNumber(toks: seq<string>, rest: string)
    requires Laid(toks, rest) && (toks != [] ==> Closes(toks[0]))
    ensures rest != "" ==> Delimiter(rest[0])
  {
    if toks != [] {
      var w, more := LaidParts(toks, rest);
      if w != "" { assert rest[0] == w[0]; } else { assert rest[0] == toks[0][0]; }
    }
  }

  lemma FirstToken(f: Features, doc: string, p: nat, toks: seq<string>)
    requires p <= |doc| && toks != [] && Laid(toks, doc[p..]) && Lexable(toks)
    ensures toks[0] != ""
    ensures var t := ReadToken(f, doc, p);
      && t.start < t.end && t.kind == KindOf(toks[0]) && TokenText(doc, t) == toks[0]
      && Laid(toks[1..], doc[t.end..])
  {
    hide Laid, ReadToken, SkipSpaces, IsNumber, IsWord, IsMark, IsString, Solid;
    var tok := toks[0];
    var w, rest := LaidParts(toks, doc[p..]);
    var q, k := p + |w|, |tok|;
    PiecesAt(doc, p, w, tok, rest);
    SolidStarts(tok);
    TextAtChar(doc, q, tok, 0);
    SkipsSpace(doc, p, q);
    TokenAgain(f, doc, p);
    if IsNumber(tok) {
      BehindNumber(toks[1..], rest);
      assert rest != "" ==> doc[q + k] == rest[0];
    }
    TokenAt(f, doc, q, tok);
  }

  lemma PiecesAt(doc: string, p: nat, w: string, tok: string, rest: string)
    requires p <= |doc| && doc[p..] == w + (tok + rest)
    ensures p + |w| + |tok| <= |doc|
    ensures doc[p..p + |w|] == w && TextAt(doc, p + |w|, tok) && doc[p + |w| + |tok|..] == rest
  {
    var d := doc[p..];
    assert d[..|w|] == w && d[|w|..|w| + |tok|] == tok && d[|w| + |tok|..] == rest;
    assert doc[p..p + |w|] == d[..|w|];
    SliceOfSlice(doc, p, |d|, |w|, |tok|);
    assert doc[p..p + |d|] == d;
    assert doc[p + |w| + |tok|..] == d[|w| + |tok|..];
  }

  lemma OnlySpaceLeft(f: Features, doc: string, p: nat)
    requires p <= |doc| && AllSpace(doc[p..])
    ensures ReadToken(f, doc, p) == Token(EndOfStream, |doc|, |doc|)
  {
    assert doc[p..|doc|] == doc[p..];
    SkipsSpace(doc, p, |doc|);
  }

  /** Two layouts of the same tokens have the same token stream. */
  lemma {:induction false} StreamsAgree(f: Features, a: string, p: nat, b: string, q: nat, toks: seq<string>)
    requires p <= |a| && q <= |b| && Laid(toks, a[p..]) && Laid(toks, b[q..]) && Lexable(toks)
    ensures SameStream(f, a, p, b, q)
    decreases |toks|
  {
    hide Laid, ReadToken, Lexable, KindOf;
    if toks == [] {
      NoTokens(a[p..]);
      NoTokens(b[q..]);
      OnlySpaceLeft(f, a, p);
      OnlySpaceLeft(f, b, q);
    } else {
      FirstToken(f, a, p, toks);
      FirstToken(f, b, q, toks);
      assert Lexable(toks[1..]) by { LexableTail(toks); }
      StreamsAgree(f, a, ReadToken(f, a, p).end, b, ReadToken(f, b, q).end, toks[1..]);
    }
  }

  lemma LexableTail(toks: seq<string>)
    requires Lexable(toks) && toks != []
    ensures Lexable(toks[1..])
  {
  }

  /** Any layout of a value's tokens reads back as FastWriter's text does: the value's normal
      form if its nesting fits, an exception if not. */
  lemma LaidThenParse(f: Features, realText: nat -> string, v: Value, text: string, root: Value)
    requires Writable(v) && Laid(ValueTokens(realText, v), text)
    ensures var r := Parse(f, text, root);
      if Nesting(v) > f.stackLimit then r == Thrown
      else
        && r.Done? && r.value == Normalize(v) && r.st.depth == 0
        && if f.strictRoot && !v.Array? && !v.Object? then
             !r.ok && |r.st.errors| == 1 && r.st.errors[0].message == RootNotContainer
           else r.ok && r.st.errors == []
  {
    hide Laid, Lexable, SameStream, ValueTokens, FastText, Strip, Parse;
    var o := Options(false, false, true, realText);
    var fast, toks := FastText(o, v), ValueTokens(realText, v);
    LayoutShowsFastText(o, v, text);
    assert Lexable([]) by { NothingLexes(); }
    ValueLexes(realText, v, []);
    assert toks + [] == toks && text[0..] == text && fast[0..] == fast;
    StreamsAgree(f, text, 0, fast, 0, toks);
    ParseSeesTokens(f, text, fast, root);
    WriteThenParse(f, o, v, root);
    assert Written(o, v) == fast;
  }

  lemma NothingLexes()
    ensures Lexable([])
  {
  }

  /** What StyledWriter writes for a tree without NUL bytes in its names reads back as FastWriter's
      text does. */
  lemma StyledThenParse(f: Features, realText: nat -> string, v: Value, root: Value)
    requires Writable(v) && NulFree(v) && PlainReals(realText)
    ensures var r := Parse(f, Document(realText, v), root);
      if Nesting(v) > f.stackLimit then r == Thrown
      else
        && r.Done? && r.value == Normalize(v) && r.st.depth == 0
        && (f.strictRoot ==> v.Array? || v.Object?) == r.ok
        && (r.ok ==> r.st.errors == [])
  {
    hide Laid, ValueTokens, Printed, NulFree, Parse, WellFormed, Readable, Normalize, Nesting, Document, PlainReals;
    PrintedTokens(realText, v);
    DocumentLaid(realText, v);
    LaidThenParse(f, realText, v, Document(realText, v), root);
  }
}
