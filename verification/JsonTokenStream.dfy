/** Layout does not matter to the readers.

    Two documents have the same token stream when reading tokens from both gives tokens of the
    same kinds with the same texts; how much white space stands before each token, and hence
    where it stands, may differ.  The readers then do the same on both: the same result, the same
    value, the same errors up to their positions. */
module JsonTokenStream {
  import opened JsonValue
  import opened JsonNumber
  import opened JsonString
  import opened JsonScanner
  import opened JsonParser

  predicate SameStream(f: Features, a: string, p: nat, b: string, q: nat)
    requires p <= |a| && q <= |b|
    decreases |a| - p
  {
    var s, t := ReadToken(f, a, p), ReadToken(f, b, q);
    && s.kind == t.kind
    && TokenText(a, s) == TokenText(b, t)
    && (s.start < s.end ==> SameStream(f, a, s.end, b, t.end))
  }

  /** Corresponding tokens of two documents, with the same streams from both their ends. */
  ghost predicate SameToken(f: Features, a: string, s: Token, b: string, t: Token) {
    && s.start <= s.end <= |a| && t.start <= t.end <= |b|
    && Shaped(s) && Shaped(t)
    && s.kind == t.kind
    && TokenText(a, s) == TokenText(b, t)
    && SameStream(f, a, s.start, b, t.start)
    && SameStream(f, a, s.end, b, t.end)
  }

  ghost predicate SameErrors(x: seq<Error>, y: seq<Error>) {
    && |x| == |y|
    && forall i :: 0 <= i < |x| ==> x[i].message == y[i].message && x[i].token.kind == y[i].token.kind
  }

  ghost predicate SameState(f: Features, a: string, x: State, b: string, y: State) {
    && x.cur <= |a| && y.cur <= |b|
    && SameStream(f, a, x.cur, b, y.cur)
    && x.depth == y.depth && SameErrors(x.errors, y.errors)
  }

  ghost predicate SameOutcome(f: Features, a: string, x: Outcome, b: string, y: Outcome) {
    && x.Thrown? == y.Thrown?
    && (x.Done? ==> x.ok == y.ok && x.value == y.value && SameState(f, a, x.st, b, y.st))
  }

  // ----- tokens --------------------------------------------------------------------------

  lemma {:induction false} SkippedStays(doc: string, p: nat)
    requires p <= |doc|
    ensures SkipSpaces(doc, SkipSpaces(doc, p)) == SkipSpaces(doc, p)
  {
  }

  lemma TokenAgain(f: Features, doc: string, p: nat)
    requires p <= |doc|
    ensures ReadToken(f, doc, SkipSpaces(doc, p)) == ReadToken(f, doc, p)
    ensures ReadToken(f, doc, p).start == SkipSpaces(doc, p)
  {
    SkippedStays(doc, p);
  }

  lemma OnlyTheEndIsEmpty(f: Features, doc: string, p: nat)
    requires p <= |doc|
    ensures var t := ReadToken(f, doc, p); t.start == t.end ==> t.end == |doc| && t.kind == EndOfStream
  {
  }

  lemma BothEnds(f: Features, a: string, b: string)
    ensures SameStream(f, a, |a|, b, |b|)
  {
    assert SkipSpaces(a, |a|) == |a| && SkipSpaces(b, |b|) == |b|;
  }

  lemma TokensMatch(f: Features, a: string, p: nat, b: string, q: nat)
    requires p <= |a| && q <= |b| && SameStream(f, a, p, b, q)
    ensures SameToken(f, a, ReadToken(f, a, p), b, ReadToken(f, b, q))
    ensures SameStream(f, a, SkipSpaces(a, p), b, SkipSpaces(b, q))
  {
    hide ReadToken, SkipSpaces;
    var s, t := ReadToken(f, a, p), ReadToken(f, b, q);
    TokenAgain(f, a, p);
    TokenAgain(f, b, q);
    assert |TokenText(a, s)| == s.end - s.start && |TokenText(b, t)| == t.end - t.start;
    if s.start == s.end {
      OnlyTheEndIsEmpty(f, a, p);
      OnlyTheEndIsEmpty(f, b, q);
      BothEnds(f, a, b);
    }
  }

  lemma {:induction false} CommentsMatch(f: Features, a: string, s: Token, b: string, t: Token)
    requires SameToken(f, a, s, b, t)
    ensures SameToken(f, a, SkipComments(f, a, s), b, SkipComments(f, b, t))
    decreases |a| - s.end, s.kind == CommentToken
  {
    hide SameStream, ReadToken;
    if s.kind == CommentToken {
      TokensMatch(f, a, s.end, b, t.end);
      CommentsMatch(f, a, ReadToken(f, a, s.end), b, ReadToken(f, b, t.end));
    }
  }

  lemma NextTokensMatch(f: Features, a: string, p: nat, b: string, q: nat)
    requires p <= |a| && q <= |b| && SameStream(f, a, p, b, q)
    ensures SameToken(f, a, NextToken(f, a, p), b, NextToken(f, b, q))
    ensures SameToken(f, a, SkipComments(f, a, ReadToken(f, a, p)), b, SkipComments(f, b, ReadToken(f, b, q)))
  {
    hide SameStream, ReadToken, SkipComments;
    TokensMatch(f, a, p, b, q);
    CommentsMatch(f, a, ReadToken(f, a, p), b, ReadToken(f, b, q));
  }

  lemma {:induction false} RecoveryMatches(f: Features, a: string, p: nat, b: string, q: nat, until: TokenType)
    requires p <= |a| && q <= |b| && SameStream(f, a, p, b, q)
    ensures SameStream(f, a, Recover(f, a, p, until), b, Recover(f, b, q, until))
    decreases |a| - p
  {
    hide SameStream, ReadToken;
    TokensMatch(f, a, p, b, q);
    var s, t := ReadToken(f, a, p), ReadToken(f, b, q);
    if s.kind != until && s.kind != EndOfStream {
      RecoveryMatches(f, a, s.end, b, t.end, until);
    }
  }

  /** readArray's peek at the next character sees a closing bracket exactly when one is the next token. */
  lemma PeekIsToken(f: Features, doc: string, p: nat)
    requires p <= |doc|
    ensures CharAt(doc, SkipSpaces(doc, p)) == ']' <==> ReadToken(f, doc, p).kind == ArrayEnd
    ensures ReadToken(f, doc, SkipSpaces(doc, p)) == ReadToken(f, doc, p)
  {
    hide SkipSpaces, Lex;
    TokenAgain(f, doc, p);
  }

  // ----- decoding ------------------------------------------------------------------------

  /** The same `n` characters stand at both places. */
  ghost predicate SameChars(a: string, p: nat, b: string, q: nat, n: nat)
    ensures SameChars(a, p, b, q, n) ==> p + n <= |a| && q + n <= |b|
  {
    p + n <= |a| && q + n <= |b| && a[p..p + n] == b[q..q + n]
  }

  lemma SameCharsAt(a: string, p: nat, b: string, q: nat, n: nat, i: nat)
    requires SameChars(a, p, b, q, n) && i < n
    ensures a[p + i] == b[q + i]
  {
    assert a[p..p + n][i] == a[p + i] && b[q..q + n][i] == b[q + i];
  }

  lemma SameCharsPart(a: string, p: nat, b: string, q: nat, n: nat, k: nat, m: nat)
    requires SameChars(a, p, b, q, n) && k + m <= n
    ensures SameChars(a, p + k, b, q + k, m)
  {
    SliceOfSlice(a, p, n, k, m);
    SliceOfSlice(b, q, n, k, m);
  }

  lemma SliceOfSlice(s: string, p: nat, n: nat, k: nat, m: nat)
    requires p + n <= |s| && k + m <= n
    ensures s[p..p + n][k..k + m] == s[p + k..p + k + m]
  {
    var x := s[p..p + n];
    var l, r := x[k..k + m], s[p + k..p + k + m];
    forall i | 0 <= i < m ensures l[i] == r[i] {
      assert l[i] == x[k + i] == s[p + (k + i)];
    }
    assert l == r;
  }

  /** The same code point from the same number of characters, or the same error. */
  predicate SameEscape(x: Escape, p: nat, y: Escape, q: nat) {
    match x
    case Escape(code, next) => y.Escape? && y.code == code && y.next - q == next - p
    case Broken(error, _) => y.Broken? && y.error == error
  }

  lemma {:induction false} ReadHexMatches(a: string, p: nat, b: string, q: nat, n: nat, acc: nat)
    requires SameChars(a, p, b, q, n)
    ensures SameEscape(ReadHex(a, p, n, acc), p, ReadHex(b, q, n, acc), q)
    decreases n
  {
    hide SameChars;
    if n > 0 {
      SameCharsAt(a, p, b, q, n, 0);
      SameCharsPart(a, p, b, q, n, 1, n - 1);
      if HexValue(a[p]) >= 0 {
        ReadHexMatches(a, p + 1, b, q + 1, n - 1, acc * 16 + HexValue(a[p]));
      }
    }
  }

  lemma SequenceMatches(a: string, p: nat, b: string, q: nat, n: nat)
    requires SameChars(a, p, b, q, n)
    ensures SameEscape(EscapeSequence(a, p, p + n), p, EscapeSequence(b, q, q + n), q)
  {
    hide ReadHex, SameChars;
    if n >= 4 {
      SameCharsPart(a, p, b, q, n, 0, 4);
      ReadHexMatches(a, p, b, q, 4, 0);
    }
  }

  lemma CodePointMatches(a: string, p: nat, b: string, q: nat, n: nat)
    requires SameChars(a, p, b, q, n)
    ensures SameEscape(EscapedCodePoint(a, p, p + n), p, EscapedCodePoint(b, q, q + n), q)
  {
    hide EscapeSequence, SameChars;
    SequenceMatches(a, p, b, q, n);
    var first := EscapeSequence(a, p, p + n);
    if first.Escape? {
      var k := first.next - p;
      SameCharsPart(a, p, b, q, n, k, n - k);
      if n - k >= 6 {
        SameCharsAt(a, p, b, q, n, k);
        SameCharsAt(a, p, b, q, n, k + 1);
        SameCharsPart(a, p, b, q, n, k + 2, n - (k + 2));
        SequenceMatches(a, p + k + 2, b, q + k + 2, n - k - 2);
      }
    }
  }

  predicate SameDecoded(x: Decoded, y: Decoded) {
    match x
    case Decoded(text) => y == Decoded(text)
    case Undecodable(error, _) => y.Undecodable? && y.error == error
  }

  lemma UnicodeMatches(a: string, p: nat, b: string, q: nat, n: nat, e: Escape, d: Escape)
    requires 2 <= n && p + n <= |a| && q + n <= |b|
    requires a[p] == b[q] == BACKSLASH && a[p + 1] == b[q + 1] == 'u'
    requires e == EscapedCodePoint(a, p + 2, p + n) && d == EscapedCodePoint(b, q + 2, q + n)
    requires SameEscape(e, p + 2, d, q + 2)
    requires e.Escape? ==> SameDecoded(DecodeChars(a, e.next, p + n), DecodeChars(b, d.next, q + n))
    ensures SameDecoded(DecodeChars(a, p, p + n), DecodeChars(b, q, q + n))
  {
    hide EscapedCodePoint, Utf8, SimpleEscape;
  }

  lemma StepMatches(a: string, p: nat, b: string, q: nat, n: nat)
    requires p + n <= |a| && q + n <= |b|
    requires n > 0 ==> a[p] == b[q]
    requires n > 1 && a[p] == BACKSLASH ==> a[p + 1] == b[q + 1] != 'u'
    requires n > 0 && a[p] != QUOTE && a[p] != BACKSLASH ==>
      SameDecoded(DecodeChars(a, p + 1, p + n), DecodeChars(b, q + 1, q + n))
    requires n > 1 && a[p] == BACKSLASH ==> SameDecoded(DecodeChars(a, p + 2, p + n), DecodeChars(b, q + 2, q + n))
    ensures SameDecoded(DecodeChars(a, p, p + n), DecodeChars(b, q, q + n))
  {
    hide EscapedCodePoint, Utf8, SimpleEscape;
  }

  lemma {:induction false} DecodingMatches(a: string, p: nat, b: string, q: nat, n: nat)
    requires SameChars(a, p, b, q, n)
    ensures SameDecoded(DecodeChars(a, p, p + n), DecodeChars(b, q, q + n))
    decreases n
  {
    hide DecodeChars, EscapedCodePoint, SameChars;
    if n > 0 {
      SameCharsAt(a, p, b, q, n, 0);
      if a[p] != QUOTE && a[p] != BACKSLASH {
        SameCharsPart(a, p, b, q, n, 1, n - 1);
        DecodingMatches(a, p + 1, b, q + 1, n - 1);
      } else if a[p] == BACKSLASH && n > 1 {
        SameCharsAt(a, p, b, q, n, 1);
        SameCharsPart(a, p, b, q, n, 2, n - 2);
        if a[p + 1] == 'u' {
          CodePointMatches(a, p + 2, b, q + 2, n - 2);
          var e, d := EscapedCodePoint(a, p + 2, p + n), EscapedCodePoint(b, q + 2, q + n);
          if e.Escape? {
            var k := e.next - p;
            SameCharsPart(a, p, b, q, n, k, n - k);
            DecodingMatches(a, p + k, b, q + k, n - k);
          }
          UnicodeMatches(a, p, b, q, n, e, d);
          return;
        }
        DecodingMatches(a, p + 2, b, q + 2, n - 2);
      }
    }
    StepMatches(a, p, b, q, n);
  }

  lemma TextsAreSameChars(f: Features, a: string, s: Token, b: string, t: Token)
    requires SameToken(f, a, s, b, t)
    ensures s.end - s.start == t.end - t.start
    ensures SameChars(a, s.start, b, t.start, s.end - s.start)
  {
    hide SameStream;
    var x, y := TokenText(a, s), TokenText(b, t);
    assert |x| == s.end - s.start && |y| == t.end - t.start;
  }

  lemma StringsMatch(f: Features, a: string, s: Token, b: string, t: Token)
    requires SameToken(f, a, s, b, t) && s.kind == StringToken
    ensures SameDecoded(DecodeString(a, s), DecodeString(b, t))
  {
    hide DecodeChars, SameChars, SameStream;
    TextsAreSameChars(f, a, s, b, t);
    var n := s.end - s.start;
    SameCharsPart(a, s.start, b, t.start, n, 1, n - 2);
    DecodingMatches(a, s.start + 1, b, t.start + 1, n - 2);
  }

  // ----- the parser ----------------------------------------------------------------------

  lemma NoErrors()
    ensures SameErrors([], [])
  {
  }

  lemma ErrorsGrow(x: seq<Error>, y: seq<Error>, s: Token, t: Token, m: Message, i: nat, j: nat)
    requires SameErrors(x, y) && s.kind == t.kind
    ensures SameErrors(x + [Error(s, m, i)], y + [Error(t, m, j)])
  {
  }

  /** An error reported on corresponding tokens, with the cursor behind them. */
  lemma ErrorMatches(f: Features, a: string, x: State, s: Token, b: string, y: State, t: Token, m: Message, i: nat, j: nat)
    requires SameState(f, a, x, b, y) && SameToken(f, a, s, b, t)
    ensures SameState(f, a, AddError(x, s, m, i), b, AddError(y, t, m, j))
  {
    hide SameStream;
    ErrorsGrow(x.errors, y.errors, s, t, m, i, j);
  }

  lemma FailMatches(f: Features, a: string, x: State, b: string, y: State, until: TokenType, v: Value)
    requires SameState(f, a, x, b, y)
    ensures SameOutcome(f, a, Fail(f, a, x, until, v), b, Fail(f, b, y, until, v))
  {
    hide SameStream, Recover;
    RecoveryMatches(f, a, x.cur, b, y.cur, until);
  }

  lemma ErrorFailMatches(f: Features, a: string, x: State, s: Token, b: string, y: State, t: Token,
                         m: Message, i: nat, j: nat, until: TokenType, v: Value)
    requires SameState(f, a, x, b, y) && SameToken(f, a, s, b, t)
    ensures SameOutcome(f, a, Fail(f, a, AddError(x, s, m, i), until, v), b, Fail(f, b, AddError(y, t, m, j), until, v))
  {
    ErrorMatches(f, a, x, s, b, y, t, m, i, j);
    FailMatches(f, a, AddError(x, s, m, i), b, AddError(y, t, m, j), until, v);
  }

  lemma ScalarMatches(f: Features, a: string, s: Token, x: State, b: string, t: Token, y: State, prior: Value)
    requires SameToken(f, a, s, b, t) && SameState(f, a, x, b, y) && StartsScalar(f, s.kind)
    ensures SameOutcome(f, a, ReadScalar(f, a, s, x, prior), b, ReadScalar(f, b, t, y, prior))
  {
    hide SameStream, DecodeNumber, DecodeString;
    if s.kind == NumberToken {
      var n := DecodeNumber(f, TokenText(a, s));
      if n.NoNumber? {
        ErrorMatches(f, a, x, s, b, y, t, n.message, 0, 0);
      }
    } else if s.kind == StringToken {
      StringsMatch(f, a, s, b, t);
      var d, e := DecodeString(a, s), DecodeString(b, t);
      if d.Undecodable? {
        ErrorMatches(f, a, x, s, b, y, t, BadString(d.error), d.extra, e.extra);
      }
    }
  }

  predicate SameName(m: NameResult, n: NameResult) {
    match m
    case MemberName(name) => n == m
    case NoName(message, _) => n.NoName? && n.message == message
    case NameThrown => n == m
  }

  lemma NamesMatch(f: Features, a: string, s: Token, b: string, t: Token)
    requires SameToken(f, a, s, b, t)
    ensures SameName(NameOf(f, a, s), NameOf(f, b, t))
  {
    hide SameStream, DecodeNumber, DecodeString, NumberName;
    if s.kind == StringToken {
      StringsMatch(f, a, s, b, t);
    }
  }

  lemma LeaveMatches(f: Features, a: string, x: Outcome, b: string, y: Outcome)
    requires SameOutcome(f, a, x, b, y)
    ensures SameOutcome(f, a, Leave(x), b, Leave(y))
  {
    hide SameStream, SameErrors;
  }

  lemma {:induction false} ReadValueMatches(f: Features, a: string, x: State, b: string, y: State, prior: Value)
    requires SameState(f, a, x, b, y)
    ensures SameOutcome(f, a, ReadValue(f, a, x, prior), b, ReadValue(f, b, y, prior))
    decreases |a| - x.cur, 0
  {
    hide ReadValue, SameStream, NextToken, Started, StartsScalar, SameErrors, Leave, AddError, TokenText;
    ValueByToken(f, a, x, prior);
    ValueByToken(f, b, y, prior);
    if x.depth < f.stackLimit {
      NextTokensMatch(f, a, x.cur, b, y.cur);
      var s, t := NextToken(f, a, x.cur), NextToken(f, b, y.cur);
      var x1, y1 := x.(cur := s.end, depth := x.depth + 1), y.(cur := t.end, depth := y.depth + 1);
      if s.kind == ObjectBegin || s.kind == ArrayBegin || StartsScalar(f, s.kind) {
        NotTheEnd(f, s.kind);
        StartedMatches(f, a, s, x1, b, t, y1, prior);
        LeaveMatches(f, a, Started(f, a, s, x1, prior), b, Started(f, b, t, y1, prior));
      } else {
        ErrorMatches(f, a, x1, s, b, y1, t, ValueExpected, 0, 0);
      }
    }
  }

  lemma NotTheEnd(f: Features, kind: TokenType)
    requires kind == ObjectBegin || kind == ArrayBegin || StartsScalar(f, kind)
    ensures kind != EndOfStream
  {
  }

  lemma {:induction false} StartedMatches(f: Features, a: string, s: Token, x: State, b: string, t: Token, y: State, prior: Value)
    requires SameToken(f, a, s, b, t) && SameState(f, a, x, b, y)
    requires s.kind == ObjectBegin || s.kind == ArrayBegin || StartsScalar(f, s.kind)
    ensures SameOutcome(f, a, Started(f, a, s, x, prior), b, Started(f, b, t, y, prior))
    decreases |a| - x.cur, 3
  {
    hide SameStream, ReadMembers, ReadArray, ReadScalar, StartsScalar, SameErrors, TokenText;
    if s.kind == ObjectBegin {
      ReadMembersMatches(f, a, x, b, y, Nil, []);
    } else if s.kind == ArrayBegin {
      ReadArrayMatches(f, a, x, b, y);
    } else {
      ScalarMatches(f, a, s, x, b, t, y, prior);
    }
  }

  lemma {:induction false} ReadMembersMatches(f: Features, a: string, x: State, b: string, y: State, e: Entries, name: string)
    requires SameState(f, a, x, b, y)
    ensures SameOutcome(f, a, ReadMembers(f, a, x, e, name), b, ReadMembers(f, b, y, e, name))
    decreases |a| - x.cur, 1
  {
    hide SameStream, ReadToken, SkipComments, ReadNamed, NameOf, Fail, IsName, SameErrors;
    NextTokensMatch(f, a, x.cur, b, y.cur);
    var s := SkipComments(f, a, ReadToken(f, a, x.cur));
    var t := SkipComments(f, b, ReadToken(f, b, y.cur));
    var x1, y1 := x.(cur := s.end), y.(cur := t.end);
    SameKindSameName(f, s, t);
    if s.kind == ObjectEnd && name == [] {
    } else if !IsName(f, s) {
      ErrorFailMatches(f, a, x1, s, b, y1, t, MemberNameMissing, 0, 0, ObjectEnd, Object(e));
    } else {
      NamesMatch(f, a, s, b, t);
      var m, n := NameOf(f, a, s), NameOf(f, b, t);
      if m.NoName? {
        ErrorFailMatches(f, a, x1, s, b, y1, t, m.message, m.extra, n.extra, ObjectEnd, Object(e));
      } else if m.MemberName? {
        ReadNamedMatches(f, a, x1, s, b, y1, t, e, m.name);
      }
    }
  }

  lemma SameKindSameName(f: Features, s: Token, t: Token)
    requires s.kind == t.kind
    ensures IsName(f, s) == IsName(f, t)
    ensures IsName(f, s) ==> s.kind != EndOfStream && s.kind != ObjectEnd
  {
  }

  lemma {:induction false} ReadNamedMatches(f: Features, a: string, x: State, s: Token, b: string, y: State, t: Token,
                                            e: Entries, name: string)
    requires SameState(f, a, x, b, y) && SameToken(f, a, s, b, t)
    ensures SameOutcome(f, a, ReadNamed(f, a, x, e, s, name), b, ReadNamed(f, b, y, e, t, name))
    decreases |a| - x.cur, 1
  {
    hide SameStream, ReadToken, ReadValue, MemberEnd, Fail, Find, Resolve, Put, StoredName, SameErrors;
    TokensMatch(f, a, x.cur, b, y.cur);
    var c, d := ReadToken(f, a, x.cur), ReadToken(f, b, y.cur);
    var x1, y1 := x.(cur := c.end), y.(cur := d.end);
    if c.kind != MemberSeparator {
      ErrorFailMatches(f, a, x1, c, b, y1, d, ColonMissing, 0, 0, ObjectEnd, Object(e));
    } else if f.ours && |name| >= NAME_LIMIT {
    } else if f.ours && f.rejectDupKeys && Find(e, StoredName(name)).Some? {
      ErrorFailMatches(f, a, x1, s, b, y1, t, DuplicateKey(name), 0, 0, ObjectEnd, Object(e));
    } else {
      var k := StoredName(name);
      ReadValueMatches(f, a, x1, b, y1, Resolve(e, k));
      var u, v := ReadValue(f, a, x1, Resolve(e, k)), ReadValue(f, b, y1, Resolve(e, k));
      if u.Done? {
        if u.ok {
          MemberEndMatches(f, a, u.st, b, v.st, Put(e, k, u.value), name);
        } else {
          FailMatches(f, a, u.st, b, v.st, ObjectEnd, Object(Put(e, k, u.value)));
        }
      }
    }
  }

  lemma {:induction false} MemberEndMatches(f: Features, a: string, x: State, b: string, y: State, e: Entries, name: string)
    requires SameState(f, a, x, b, y)
    ensures SameOutcome(f, a, MemberEnd(f, a, x, e, name), b, MemberEnd(f, b, y, e, name))
    decreases |a| - x.cur, 2
  {
    hide SameStream, ReadToken, SkipComments, ReadMembers, Fail, SameErrors;
    TokensMatch(f, a, x.cur, b, y.cur);
    NextTokensMatch(f, a, x.cur, b, y.cur);
    var c, d := ReadToken(f, a, x.cur), ReadToken(f, b, y.cur);
    if c.kind !in {ObjectEnd, ArraySeparator, CommentToken} {
      ErrorFailMatches(f, a, x.(cur := c.end), c, b, y.(cur := d.end), d, ObjectCommaMissing, 0, 0, ObjectEnd, Object(e));
    } else {
      var s, t := SkipComments(f, a, c), SkipComments(f, b, d);
      if s.kind != ObjectEnd {
        ReadMembersMatches(f, a, x.(cur := s.end), b, y.(cur := t.end), e, name);
      }
    }
  }

  lemma {:induction false} ReadArrayMatches(f: Features, a: string, x: State, b: string, y: State)
    requires SameState(f, a, x, b, y)
    ensures SameOutcome(f, a, ReadArray(f, a, x), b, ReadArray(f, b, y))
    decreases |a| - x.cur, 2
  {
    hide SameStream, ReadToken, SkipSpaces, ReadElements, SameErrors;
    TokensMatch(f, a, x.cur, b, y.cur);
    PeekIsToken(f, a, x.cur);
    PeekIsToken(f, b, y.cur);
    ReadElementsMatches(f, a, x.(cur := SkipSpaces(a, x.cur)), b, y.(cur := SkipSpaces(b, y.cur)), Nil, 0);
  }

  lemma {:induction false} ReadElementsMatches(f: Features, a: string, x: State, b: string, y: State, e: Entries, index: nat)
    requires SameState(f, a, x, b, y)
    ensures SameOutcome(f, a, ReadElements(f, a, x, e, index), b, ReadElements(f, b, y, e, index))
    decreases |a| - x.cur, 1
  {
    hide SameStream, ReadToken, SkipComments, ReadValue, Fail, Resolve, Put, SameErrors;
    if index <= MAX_INT {
      var prior := Resolve(e, Index(index));
      ReadValueMatches(f, a, x, b, y, prior);
      var u, v := ReadValue(f, a, x, prior), ReadValue(f, b, y, prior);
      if u.Done? {
        var e1 := Put(e, Index(index), u.value);
        if !u.ok {
          FailMatches(f, a, u.st, b, v.st, ArrayEnd, Array(e1));
        } else {
          NextTokensMatch(f, a, u.st.cur, b, v.st.cur);
          var s := SkipComments(f, a, ReadToken(f, a, u.st.cur));
          var t := SkipComments(f, b, ReadToken(f, b, v.st.cur));
          var x1, y1 := u.st.(cur := s.end), v.st.(cur := t.end);
          if s.kind == ArraySeparator {
            ReadElementsMatches(f, a, x1, b, y1, e1, index + 1);
          } else if s.kind != ArrayEnd {
            ErrorFailMatches(f, a, x1, s, b, y1, t, ArrayCommaMissing, 0, 0, ArrayEnd, Array(e1));
          }
        }
      }
    }
  }

  lemma NextEndsMatch(f: Features, a: string, x: State, b: string, y: State)
    requires SameState(f, a, x, b, y)
    ensures var s, t := NextToken(f, a, x.cur), NextToken(f, b, y.cur);
      s.kind == t.kind && SameState(f, a, x.(cur := s.end), b, y.(cur := t.end))
  {
    hide SameStream, NextToken, SameErrors;
    NextTokensMatch(f, a, x.cur, b, y.cur);
  }

  /** Documents with the same token stream parse alike, whatever the features. */
  lemma ParseSeesTokens(f: Features, a: string, b: string, root: Value)
    requires SameStream(f, a, 0, b, 0)
    ensures SameOutcome(f, a, Parse(f, a, root), b, Parse(f, b, root))
  {
    hide SameStream, ReadValue, NextToken, SameErrors;
    assert SameErrors([], []) by { NoErrors(); }
    var start := State(0, 0, []);
    ReadValueMatches(f, a, start, b, start, root);
    var u, v := ReadValue(f, a, start, root), ReadValue(f, b, start, root);
    if u.Done? {
      NextEndsMatch(f, a, u.st, b, v.st);
      var s, t := NextToken(f, a, u.st.cur), NextToken(f, b, v.st.cur);
      var x, y := u.st.(cur := s.end), v.st.(cur := t.end);
      ErrorsGrow(x.errors, y.errors, s, t, ExtraText, 0, 0);
      ErrorsGrow(x.errors, y.errors, Token(ErrorToken, 0, |a|), Token(ErrorToken, 0, |b|), RootNotContainer, 0, 0);
    }
  }
}
