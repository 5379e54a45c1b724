/** Every error a reader records is deserved, and every recovery ends where it should.

    An error names a token of the document and a message.  `Justified` says, in terms of the token's
    text, what must be wrong for each message.  Behind a broken object the cursor stands behind a
    closing brace, behind a broken array behind a closing bracket, or at the end of the stream. */
module JsonErrors {
  import opened JsonValue
  import opened JsonNumber
  import opened JsonString
  import opened JsonScanner
  import opened JsonParser
  import opened JsonEscapes
  import opened JsonLexemes
  import opened JsonGrammar
  import opened JsonAcceptance

  // ----- what an error says ------------------------------------------------------------------

  ghost predicate IsToken(f: Features, doc: string, t: Token) {
    exists p: nat :: p <= |doc| && ReadToken(f, doc, p) == t
  }

  /** The token stands right behind one that names a member. */
  ghost predicate BehindName(f: Features, doc: string, t: Token) {
    exists p: nat :: p <= |doc| && IsName(f, ReadToken(f, doc, p)) && ReadToken(f, doc, ReadToken(f, doc, p).end) == t
  }

  predicate Special(f: Features, x: string) { f.ours && f.allowSpecialFloats && (x == "NaN" || x == "Infinity" || x == "-Infinity") }

  ghost predicate StartsValue(f: Features, x: string) {
    || x in {"{", "[", "null", "true", "false"} || Special(f, x)
    || IsStringText(f, x) || IsNumberText(x)
    || (f.allowDroppedNullPlaceholders && x in {",", "]", "}"})
  }

  ghost predicate NamesMember(f: Features, x: string) { IsStringText(f, x) || (IsNumberText(x) && f.allowNumericKeys) }

  /** What is wrong with the token text `x`. */
  ghost predicate Deserves(f: Features, x: string, m: Message) {
    match m
    case ValueExpected => !StartsValue(f, x)
    case ColonMissing => x != ":"
    case ObjectCommaMissing => x != "," && x != "}" && !IsCommentText(f, x)
    case MemberNameMissing => !NamesMember(f, x) && !IsCommentText(f, x)
    case ArrayCommaMissing => x != "," && x != "]" && !IsCommentText(f, x)
    case DuplicateKey(name) => f.ours && f.rejectDupKeys && NameValue(f, x) == Some(name)
    case NotANumber(text) => text == x && IsNumberText(x) && NumberValue(f, x).None?
    case BadString(_) => IsStringText(f, x) && StringValue(x).None?
    case ExtraText => f.ours && f.failIfExtra && x != ""
    case RootNotContainer => false
  }

  /** For a bad escape: which one, and where it goes wrong.  Other errors have no such place. */
  predicate Placed(doc: string, e: Error)
    requires e.token.start <= e.token.end <= |doc|
  {
    var p, end := e.token.start + 1, e.token.end - 1;
    if !e.message.BadString? then e.extra == 0
    else
      && p <= end && Unescape(doc[p..end]).None?
      && var fault := FirstFault(doc[p..end]);
      e.message.why == fault.error && e.extra == p + fault.offset
  }

  ghost predicate Justified(f: Features, doc: string, e: Error) {
    if e.message.RootNotContainer? then f.strictRoot && e.token == Token(ErrorToken, 0, |doc|) && e.extra == 0
    else
      && IsToken(f, doc, e.token) && e.token.start <= e.token.end <= |doc|
      && Deserves(f, TokenText(doc, e.token), e.message) && Placed(doc, e)
      && (e.message.ColonMissing? ==> BehindName(f, doc, e.token))
  }

  ghost predicate AllJustified(f: Features, doc: string, errors: seq<Error>) {
    forall i :: 0 <= i < |errors| ==> Justified(f, doc, errors[i])
  }

  lemma OneMore(f: Features, doc: string, st: State, t: Token, m: Message, extra: nat)
    requires AllJustified(f, doc, st.errors) && Justified(f, doc, Error(t, m, extra))
    ensures AllJustified(f, doc, AddError(st, t, m, extra).errors)
  {
    hide Justified;
  }

  // ----- recovery ------------------------------------------------------------------------------

  /** The cursor stands behind a token of the wanted kind, or at the end of the stream. */
  ghost predicate Recovered(f: Features, doc: string, q: nat, until: TokenType) {
    exists p: nat :: p <= |doc| && ReadToken(f, doc, p).end == q && ReadToken(f, doc, p).kind in {until, EndOfStream}
  }

  /** recoverFromError stops behind the first token of the wanted kind: no token it skips is one. */
  lemma {:induction false} RecoverStops(f: Features, doc: string, p: nat, until: TokenType) returns (skipped: seq<string>, q: nat)
    requires p <= |doc|
    ensures q <= |doc| && Reads(f, doc, p, skipped, q)
    ensures forall i :: 0 <= i < |skipped| ==> KindOf(f, skipped[i]) != until && skipped[i] != ""
    ensures ReadToken(f, doc, q).kind in {until, EndOfStream} && ReadToken(f, doc, q).end == Recover(f, doc, p, until)
    decreases |doc| - p
  {
    hide ReadToken, KindOf;
    var t := ReadToken(f, doc, p);
    if t.kind == until || t.kind == EndOfStream {
      skipped, q := [], p;
    } else {
      var more;
      more, q := RecoverStops(f, doc, t.end, until);
      skipped := [TokenText(doc, t)] + more;
      TokenMeaning(f, doc, p);
      ReadsOne(f, doc, p);
      ReadsAppend(f, doc, p, [TokenText(doc, t)], t.end, more, q);
    }
  }

  lemma FailRecovers(f: Features, doc: string, st: State, until: TokenType, value: Value)
    requires st.cur <= |doc|
    ensures var r := Fail(f, doc, st, until, value);
      r.Done? && !r.ok && r.st.errors == st.errors && Recovered(f, doc, r.st.cur, until)
  {
    hide ReadToken, Recover;
    var skipped, q := RecoverStops(f, doc, st.cur, until);
  }

  /** Failure records justified errors only and, in a container, recovers behind its end. */
  ghost predicate Deserved(f: Features, doc: string, r: Outcome) {
    r.Done? ==> AllJustified(f, doc, r.st.errors)
  }

  ghost predicate Closed(f: Features, doc: string, r: Outcome, until: TokenType) {
    r.Done? && !r.ok ==> Recovered(f, doc, r.st.cur, until)
  }

  // ----- kinds -----------------------------------------------------------------------------------

  lemma WordKinds(f: Features, x: string)
    ensures KindOf(f, x) == NullToken <==> x == "null"
    ensures KindOf(f, x) == TrueToken <==> x == "true"
    ensures KindOf(f, x) == FalseToken <==> x == "false"
    ensures KindOf(f, x) in {NaNToken, PosInfToken, NegInfToken} <==> Special(f, x)
  {
    hide IsStringText, IsNumberText, IsCommentText;
  }

  /** A token that does not start a value has a text that does not. */
  lemma StartKinds(f: Features, x: string)
    ensures StartsValue(f, x) <==> KindOf(f, x) == ObjectBegin || KindOf(f, x) == ArrayBegin || StartsScalar(f, KindOf(f, x))
  {
    hide IsStringText, IsNumberText, IsCommentText, KindOf;
    WordKinds(f, x);
    MarkKinds(f, x);
    ShapeKinds(f, x);
  }

  /** The token behind comments is a token, and its text is no comment. */
  lemma BehindComments(f: Features, doc: string, p: nat) returns (q: nat)
    requires p <= |doc|
    ensures q <= |doc| && SkipComments(f, doc, ReadToken(f, doc, p)) == ReadToken(f, doc, q)
    ensures var t := ReadToken(f, doc, q);
      IsToken(f, doc, t) && t.kind == KindOf(f, TokenText(doc, t)) && !IsCommentText(f, TokenText(doc, t))
  {
    hide ReadToken, KindOf, IsCommentText;
    var cs;
    cs, q := CommentsSound(f, doc, p);
    TokenMeaning(f, doc, q);
    ShapeKinds(f, TokenText(doc, ReadToken(f, doc, q)));
  }

  // ----- runs ------------------------------------------------------------------------------------

  lemma {:induction false} ValueErrors(f: Features, doc: string, st: State, prior: Value)
    requires st.cur <= |doc| && AllJustified(f, doc, st.errors)
    ensures Deserved(f, doc, ReadValue(f, doc, st, prior))
    decreases |doc| - st.cur, 0
  {
    hide ReadValue, NextToken, ReadToken, ReadMembers, ReadArray, ReadScalar, StartsScalar, AllJustified, Justified, KindOf, StartsValue, AddError;
    ValueByToken(f, doc, st, prior);
    if st.depth < f.stackLimit {
      var t := NextToken(f, doc, st.cur);
      var st1 := st.(cur := t.end, depth := st.depth + 1);
      var cs, q := LeadingSound(f, doc, st.cur);
      TokenMeaning(f, doc, q);
      var x := TokenText(doc, t);
      MarkKinds(f, x);
      StartKinds(f, x);
      assert IsToken(f, doc, t);
      if t.kind == ObjectBegin {
        MembersErrors(f, doc, st1, Nil, []);
      } else if t.kind == ArrayBegin {
        ArrayErrors(f, doc, st1);
      } else if StartsScalar(f, t.kind) {
        ScalarErrors(f, doc, t, st1, prior);
      } else {
        assert Justified(f, doc, Error(t, ValueExpected, 0)) by { TokenDeserves(f, doc, t, ValueExpected, 0); }
        OneMore(f, doc, st1, t, ValueExpected, 0);
        SameErrors(st1, t, ValueExpected, 0);
      }
    }
  }

  lemma SameErrors(st: State, t: Token, m: Message, extra: nat)
    ensures AddError(st, t, m, extra).errors == st.errors + [Error(t, m, extra)] && AddError(st, t, m, extra).cur == st.cur
  {
  }

  lemma TokenDeserves(f: Features, doc: string, t: Token, m: Message, extra: nat)
    requires IsToken(f, doc, t) && t.start <= t.end <= |doc| && Deserves(f, TokenText(doc, t), m) && Placed(doc, Error(t, m, extra)) && !m.ColonMissing? && !m.RootNotContainer?
    ensures Justified(f, doc, Error(t, m, extra))
  {
    hide IsToken, Deserves, Placed;
  }

  lemma ScalarErrors(f: Features, doc: string, t: Token, st: State, prior: Value)
    requires t.start <= t.end <= |doc| && Shaped(t) && StartsScalar(f, t.kind) && t.kind == KindOf(f, TokenText(doc, t)) && IsToken(f, doc, t)
    requires AllJustified(f, doc, st.errors)
    ensures Deserved(f, doc, ReadScalar(f, doc, t, st, prior))
  {
    hide DecodeString, IntegerOf, StringValue, AllJustified, Justified, KindOf, IsToken, IsStringText, IsNumberText;
    var x := TokenText(doc, t);
    ShapeKinds(f, x);
    if t.kind == StringToken {
      StringToText(f, doc, t);
      var d := DecodeString(doc, t);
      if d.Undecodable? {
        BadStringPlaced(doc, t);
        TokenDeserves(f, doc, t, BadString(d.error), d.extra);
        OneMore(f, doc, st, t, BadString(d.error), d.extra);
      }
    } else if t.kind == NumberToken && DecodeNumber(f, x).NoNumber? {
      TokenDeserves(f, doc, t, NotANumber(x), 0);
      OneMore(f, doc, st, t, NotANumber(x), 0);
    }
  }

  /** An error in a container, and the recovery behind it. */
  lemma FailDeserved(f: Features, doc: string, st: State, t: Token, m: Message, extra: nat, until: TokenType, value: Value)
    requires st.cur <= |doc| && AllJustified(f, doc, st.errors) && Justified(f, doc, Error(t, m, extra))
    ensures var r := Fail(f, doc, AddError(st, t, m, extra), until, value);
      Deserved(f, doc, r) && Closed(f, doc, r, until)
  {
    hide Justified, AllJustified, Fail, Recovered;
    OneMore(f, doc, st, t, m, extra);
    SameErrors(st, t, m, extra);
    FailRecovers(f, doc, AddError(st, t, m, extra), until, value);
  }

  lemma {:induction false} MembersErrors(f: Features, doc: string, st: State, e: Entries, name: string)
    requires st.cur <= |doc| && AllJustified(f, doc, st.errors)
    ensures var r := ReadMembers(f, doc, st, e, name); Deserved(f, doc, r) && Closed(f, doc, r, ObjectEnd)
    decreases |doc| - st.cur, 1
  {
    hide ReadMembers, ReadNamed, ReadToken, SkipComments, NameOf, Fail, AddError, AllJustified, Justified, KindOf, IsToken, Recovered, Deserves, IsName;
    MembersByToken(f, doc, st, e, name);
    var q := BehindComments(f, doc, st.cur);
    var t := ReadToken(f, doc, q);
    var st1 := st.(cur := t.end);
    if t.kind == ObjectEnd && name == [] {
    } else if !IsName(f, t) {
      NoNameDeserves(f, doc, t);
      FailDeserved(f, doc, st1, t, MemberNameMissing, 0, ObjectEnd, Object(e));
    } else {
      var n := NameOf(f, doc, t);
      NameDeserves(f, doc, t);
      if n.NoName? {
        FailDeserved(f, doc, st1, t, n.message, n.extra, ObjectEnd, Object(e));
      } else if n.MemberName? {
        NamedErrors(f, doc, st1, e, q, n.name);
      }
    }
  }

  lemma NoNameDeserves(f: Features, doc: string, t: Token)
    requires IsToken(f, doc, t) && t.start <= t.end <= |doc| && !IsName(f, t)
    requires t.kind == KindOf(f, TokenText(doc, t)) && !IsCommentText(f, TokenText(doc, t))
    ensures Justified(f, doc, Error(t, MemberNameMissing, 0))
  {
    hide IsToken, KindOf, IsStringText, IsNumberText, IsCommentText;
    ShapeKinds(f, TokenText(doc, t));
  }

  lemma NameDeserves(f: Features, doc: string, t: Token)
    requires IsToken(f, doc, t) && t.start <= t.end <= |doc| && Shaped(t) && IsName(f, t) && t.kind == KindOf(f, TokenText(doc, t))
    ensures var n := NameOf(f, doc, t);
      n.NoName? ==> Justified(f, doc, Error(t, n.message, n.extra))
  {
    hide IsToken, KindOf, IsStringText, IsNumberText, DecodeString, StringValue, IntegerOf, NumberName;
    ShapeKinds(f, TokenText(doc, t));
    if t.kind == StringToken {
      StringToText(f, doc, t);
      if DecodeString(doc, t).Undecodable? { BadStringPlaced(doc, t); }
    }
  }

  lemma BadStringPlaced(doc: string, t: Token)
    requires t.start + 2 <= t.end <= |doc| && DecodeString(doc, t).Undecodable?
    ensures var d := DecodeString(doc, t); Placed(doc, Error(t, BadString(d.error), d.extra))
  {
    hide DecodeChars, Unescape, FirstFault;
    DecodingIsUnescaping(doc, t.start + 1, t.end - 1);
    FaultsAgree(doc, t.start + 1, t.end - 1);
  }

  /** The name is that of the token at `q`. */
  lemma {:induction false} NamedErrors(f: Features, doc: string, st: State, e: Entries, q: nat, name: string)
    requires q <= |doc| && AllJustified(f, doc, st.errors)
    requires var t := ReadToken(f, doc, q);
      st.cur == t.end && t.kind == KindOf(f, TokenText(doc, t)) && IsName(f, t) && NameOf(f, doc, t) == MemberName(name)
    ensures var r := ReadNamed(f, doc, st, e, ReadToken(f, doc, q), name); Deserved(f, doc, r) && Closed(f, doc, r, ObjectEnd)
    decreases |doc| - st.cur, 1
  {
    hide ReadToken, ReadValue, MemberEnd, Fail, AddError, Find, Put, Resolve, StoredName, NameOf, AllJustified, Justified, KindOf, Recovered, Deserves, IsName;
    var t := ReadToken(f, doc, q);
    var colon := ReadToken(f, doc, st.cur);
    var st1 := st.(cur := colon.end);
    NamedDeserves(f, doc, q, name);
    if colon.kind != MemberSeparator {
      FailDeserved(f, doc, st1, colon, ColonMissing, 0, ObjectEnd, Object(e));
    } else if f.ours && |name| >= NAME_LIMIT {
    } else if f.ours && f.rejectDupKeys && Find(e, StoredName(name)).Some? {
      FailDeserved(f, doc, st1, t, DuplicateKey(name), 0, ObjectEnd, Object(e));
    } else {
      var k := StoredName(name);
      ValueErrors(f, doc, st1, Resolve(e, k));
      var r := ReadValue(f, doc, st1, Resolve(e, k));
      if r.Done? {
        if r.ok { MemberEndErrors(f, doc, r.st, Put(e, k, r.value), name); }
        else { FailRecovers(f, doc, r.st, ObjectEnd, Object(Put(e, k, r.value))); }
      }
    }
  }

  lemma NamedDeserves(f: Features, doc: string, q: nat, name: string)
    requires q <= |doc|
    requires var t := ReadToken(f, doc, q);
      t.kind == KindOf(f, TokenText(doc, t)) && IsName(f, t) && NameOf(f, doc, t) == MemberName(name)
    ensures var t := ReadToken(f, doc, q);
      var colon := ReadToken(f, doc, t.end);
      && (colon.kind != MemberSeparator ==> Justified(f, doc, Error(colon, ColonMissing, 0)))
      && (f.ours && f.rejectDupKeys && |name| < NAME_LIMIT ==> Justified(f, doc, Error(t, DuplicateKey(name), 0)))
  {
    hide ReadToken, KindOf, NameOf, NameValue, IsName;
    var t := ReadToken(f, doc, q);
    var colon := ReadToken(f, doc, t.end);
    TokenMeaning(f, doc, t.end);
    MarkKinds(f, TokenText(doc, colon));
    NameToText(f, doc, t);
    assert IsToken(f, doc, t) && IsToken(f, doc, colon);
  }

  lemma {:induction false} MemberEndErrors(f: Features, doc: string, st: State, e: Entries, name: string)
    requires st.cur <= |doc| && AllJustified(f, doc, st.errors)
    ensures var r := MemberEnd(f, doc, st, e, name); Deserved(f, doc, r) && Closed(f, doc, r, ObjectEnd)
    decreases |doc| - st.cur, 2
  {
    hide ReadToken, SkipComments, ReadMembers, Fail, AddError, AllJustified, Justified, KindOf, Recovered, IsCommentText;
    var comma := ReadToken(f, doc, st.cur);
    TokenMeaning(f, doc, st.cur);
    if comma.kind !in {ObjectEnd, ArraySeparator, CommentToken} {
      MarkKinds(f, TokenText(doc, comma));
      ShapeKinds(f, TokenText(doc, comma));
      assert IsToken(f, doc, comma);
      TokenDeserves(f, doc, comma, ObjectCommaMissing, 0);
      FailDeserved(f, doc, st.(cur := comma.end), comma, ObjectCommaMissing, 0, ObjectEnd, Object(e));
    } else {
      var t := SkipComments(f, doc, comma);
      if t.kind != ObjectEnd { MembersErrors(f, doc, st.(cur := t.end), e, name); }
    }
  }

  lemma {:induction false} ArrayErrors(f: Features, doc: string, st: State)
    requires st.cur <= |doc| && AllJustified(f, doc, st.errors)
    ensures var r := ReadArray(f, doc, st); Deserved(f, doc, r) && Closed(f, doc, r, ArrayEnd)
    decreases |doc| - st.cur, 2
  {
    hide ReadToken, SkipSpaces, ReadElements, AllJustified, Recovered;
    ElementsErrors(f, doc, st.(cur := SkipSpaces(doc, st.cur)), Nil, 0);
  }

  lemma {:induction false} ElementsErrors(f: Features, doc: string, st: State, e: Entries, index: nat)
    requires st.cur <= |doc| && AllJustified(f, doc, st.errors)
    ensures var r := ReadElements(f, doc, st, e, index); Deserved(f, doc, r) && Closed(f, doc, r, ArrayEnd)
    decreases |doc| - st.cur, 1
  {
    hide ReadElements, ReadToken, SkipComments, ReadValue, Fail, AddError, Find, Put, Resolve, AllJustified, Justified, KindOf, Recovered, IsCommentText;
    ElementsByToken(f, doc, st, e, index);
    if index <= MAX_INT {
      var prior := Resolve(e, Index(index));
      ValueErrors(f, doc, st, prior);
      var r := ReadValue(f, doc, st, prior);
      if r.Done? {
        var e1 := Put(e, Index(index), r.value);
        if !r.ok {
          FailRecovers(f, doc, r.st, ArrayEnd, Array(e1));
        } else {
          var q := BehindComments(f, doc, r.st.cur);
          var t := ReadToken(f, doc, q);
          var st1 := r.st.(cur := t.end);
          MarkKinds(f, TokenText(doc, t));
          if t.kind == ArraySeparator {
            ElementsErrors(f, doc, st1, e1, index + 1);
          } else if t.kind != ArrayEnd {
            TokenDeserves(f, doc, t, ArrayCommaMissing, 0);
            FailDeserved(f, doc, st1, t, ArrayCommaMissing, 0, ArrayEnd, Array(e1));
          }
        }
      }
    }
  }

  /** Every error of every parse is justified by the document. */
  lemma ParseErrors(f: Features, doc: string, root: Value)
    ensures Deserved(f, doc, Parse(f, doc, root))
  {
    hide ReadValue, NextToken, ReadToken, KindOf;
    var st := State(0, 0, []);
    ValueErrors(f, doc, st, root);
    var r := ReadValue(f, doc, st, root);
    if r.Done? {
      var cs, q := LeadingSound(f, doc, r.st.cur);
      var t := NextToken(f, doc, r.st.cur);
      TokenMeaning(f, doc, q);
      assert IsToken(f, doc, t);
    }
  }
}
