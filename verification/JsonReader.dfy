/** The reader as the source has it: an object whose methods move a cursor, push and pop the
    stack of values being filled in, count the depth and collect errors.  Each method is proved
    against the function of JsonScanner or JsonParser of the same purpose.

    `nodes_` holds pointers into the tree.  The model keeps the values themselves: the value
    pushed for a child is stored into its parent when it is popped. */
module JsonReader {
  import opened JsonValue
  import opened JsonNumber
  import opened JsonString
  import opened JsonScanner
  import P = JsonParser
  import R = JsonRun

  /** How a call ends: with the boolean it returns, or by an exception. */
  datatype Status = Returned(ok: bool) | Exception

  class Reader {
    const features: Features
    var doc: string
    var current: nat
    var nodes: seq<Value>
    var errors: seq<P.Error>
    var depth: int

    constructor (features: Features)
      ensures this.features == features && Valid()
    {
      this.features := features;
      doc, current, nodes, errors, depth := "", 0, [Null], [], 0;
    }

    /** The cursor is inside the document, there is a current value, and the depth counter has
        not passed the limit. */
    ghost predicate Valid()
      reads this
    {
      current <= |doc| && nodes != [] && 0 <= depth && (depth == 0 || depth <= features.stackLimit)
    }

    ghost function St(): P.State
      reads this
    {
      P.State(current, depth, errors)
    }

    function Top(): Value
      requires nodes != []
      reads this
    {
      nodes[|nodes| - 1]
    }

    // ----- characters ----------------------------------------------------------------------

    method GetNextChar() returns (c: char)
      requires Valid()
      modifies this`current
      ensures Valid() && c == CharAt(doc, old(current))
      ensures current == if old(current) < |doc| then old(current) + 1 else old(current)
    {
      if current == |doc| { return NUL; }
      c := doc[current];
      current := current + 1;
    }

    method SkipSpaces()
      requires Valid()
      modifies this`current
      ensures Valid() && current == JsonScanner.SkipSpaces(doc, old(current))
    {
      while current != |doc|
        invariant Valid()
        invariant JsonScanner.SkipSpaces(doc, current) == JsonScanner.SkipSpaces(doc, old(current))
        decreases |doc| - current
      {
        var c := doc[current];
        if c == ' ' || c == '\t' || c == '\r' || c == '\n' {
          current := current + 1;
        } else {
          break;
        }
      }
    }

    method MatchPattern(pattern: string) returns (ok: bool)
      requires Valid()
      modifies this`current
      ensures Valid() && Scan(ok, current) == Match(doc, old(current), pattern)
    {
      if |doc| - current < |pattern| { return false; }
      var index := |pattern|;
      while index > 0
        invariant 0 <= index <= |pattern|
        invariant forall i :: index <= i < |pattern| ==> doc[current + i] == pattern[i]
      {
        index := index - 1;
        if doc[current + index] != pattern[index] {
          assert doc[current..current + |pattern|][index] != pattern[index];
          return false;
        }
      }
      assert doc[current..current + |pattern|] == pattern;
      current := current + |pattern|;
      ok := true;
    }

    method ReadCStyleComment() returns (ok: bool)
      requires Valid()
      modifies this`current
      ensures Valid() && Scan(ok, current) == CStyleComment(doc, old(current))
    {
      while current != |doc|
        invariant Valid()
        invariant CStyleComment(doc, current) == CStyleComment(doc, old(current))
        decreases |doc| - current
      {
        ghost var before := current;
        var c := GetNextChar();
        if c == '*' && CharAt(doc, current) == '/' {
          var slash := GetNextChar();
          return slash == '/';
        }
      }
      var last := GetNextChar();
      ok := last == '/';
    }

    method ReadCppStyleComment()
      requires Valid()
      modifies this`current
      ensures Valid() && current == CppStyleComment(doc, old(current))
    {
      while current != |doc|
        invariant Valid()
        invariant CppStyleComment(doc, current) == CppStyleComment(doc, old(current))
        decreases |doc| - current
      {
        var c := GetNextChar();
        if c == '\n' { return; }
        if c == '\r' {
          if current != |doc| && doc[current] == '\n' {
            var lineFeed := GetNextChar();
          }
          return;
        }
      }
    }

    method ReadComment() returns (ok: bool)
      requires Valid()
      modifies this`current
      ensures Valid() && Scan(ok, current) == Comment(doc, old(current))
    {
      var c := GetNextChar();
      ok := false;
      if c == '*' {
        ok := ReadCStyleComment();
      } else if c == '/' {
        ReadCppStyleComment();
        ok := true;
      }
    }

    /** `c = (current_ = p) < end_ ? *p++ : '\0'`: the cursor trails the look-ahead pointer. */
    method Advance(p: nat) returns (c: char, next: nat)
      requires Valid() && p <= |doc|
      modifies this`current
      ensures Valid() && current == p && c == CharAt(doc, p) && next == if p < |doc| then p + 1 else p
    {
      current := p;
      if p < |doc| { c, next := doc[p], p + 1; } else { c, next := NUL, p; }
    }

    /** The digit loop of readNumber, entered behind a character. */
    method ReadDigits(p: nat) returns (c: char, next: nat)
      requires Valid() && p <= |doc|
      modifies this`current
      ensures Valid() && current == SkipDigits(doc, p) && c == CharAt(doc, current)
      ensures next == if current < |doc| then current + 1 else current
    {
      c, next := Advance(p);
      while '0' <= c <= '9'
        invariant Valid() && c == CharAt(doc, current)
        invariant next == if current < |doc| then current + 1 else current
        invariant SkipDigits(doc, current) == SkipDigits(doc, p)
        decreases |doc| - current
      {
        c, next := Advance(next);
      }
    }

    /** readNumber; false only in OurReader on an 'I' behind the minus. */
    method ReadNumber(checkInf: bool) returns (number: bool)
      requires Valid()
      modifies this`current
      ensures Valid()
      ensures number == !(checkInf && features.ours && CharAt(doc, old(current)) == 'I')
      ensures current == if number then NumberEnd(doc, old(current)) else old(current) + 1
    {
      hide SkipDigits;
      var p := current;
      if features.ours && checkInf && p != |doc| && doc[p] == 'I' {
        current := p + 1;
        return false;
      }
      var c;
      c, p := ReadDigits(p);
      if c == '.' {
        c, p := ReadDigits(p);
      }
      if c == 'e' || c == 'E' {
        c, p := Advance(p);
        if c == '+' || c == '-' {
          c, p := Advance(p);
        }
        c, p := ReadDigits(current);
      }
      number := true;
    }

    method ReadString(quote: char) returns (ok: bool)
      requires Valid() && quote != BACKSLASH && quote != NUL
      modifies this`current
      ensures Valid() && Scan(ok, current) == ScanString(doc, old(current), quote)
    {
      var c := NUL;
      while current != |doc|
        invariant Valid()
        invariant ScanString(doc, current, quote) == ScanString(doc, old(current), quote)
        invariant c != quote
        decreases |doc| - current
      {
        c := GetNextChar();
        if c == BACKSLASH {
          var escaped := GetNextChar();
        } else if c == quote {
          break;
        }
      }
      ok := c == quote;
    }

    // ----- tokens --------------------------------------------------------------------------

    method ReadWord(pattern: string, kind: TokenType) returns (r: TokenType, ok: bool)
      requires Valid()
      modifies this`current
      ensures Valid() && Lexeme(r, ok, current) == Word(kind, Match(doc, old(current), pattern))
    {
      ok := MatchPattern(pattern);
      r := kind;
    }

    /** The switch of readToken. */
    method ReadLexeme(c: char) returns (kind: TokenType, ok: bool)
      requires Valid()
      modifies this`current
      ensures Valid() && Lexeme(kind, ok, current) == Lex(features, doc, c, old(current))
    {
      ok := true;
      if Punctuation(c) {
        kind := PunctuationType(c);
      } else if c == QUOTE {
        kind := StringToken;
        ok := ReadString(QUOTE);
      } else if c == '\'' && features.ours && features.allowSingleQuotes {
        kind := StringToken;
        ok := ReadString('\'');
      } else if c == '/' || (c == '\'' && features.ours) {
        kind := CommentToken;
        ok := ReadComment();
      } else if c == '-' {
        var number := ReadNumber(true);
        if number {
          kind := NumberToken;
        } else if features.allowSpecialFloats {
          kind, ok := ReadWord("nfinity", NegInfToken);
        } else {
          kind, ok := NegInfToken, false;
        }
      } else if IsDigit(c) {
        kind := NumberToken;
        var number := ReadNumber(false);
      } else {
        kind, ok := ReadLetter(c);
      }
    }

    method ReadLetter(c: char) returns (kind: TokenType, ok: bool)
      requires Valid() && !Punctuation(c) && c != QUOTE && c != '/' && c != '-' && !IsDigit(c)
      requires !(c == '\'' && features.ours)
      modifies this`current
      ensures Valid() && Lexeme(kind, ok, current) == Lex(features, doc, c, old(current))
    {
      ok := true;
      if c == 't' {
        kind, ok := ReadWord("rue", TrueToken);
      } else if c == 'f' {
        kind, ok := ReadWord("alse", FalseToken);
      } else if c == 'n' {
        kind, ok := ReadWord("ull", NullToken);
      } else if c == 'N' && features.ours && features.allowSpecialFloats {
        kind, ok := ReadWord("aN", NaNToken);
      } else if c == 'I' && features.ours && features.allowSpecialFloats {
        kind, ok := ReadWord("nfinity", PosInfToken);
      } else if c == NUL {
        kind := EndOfStream;
      } else {
        kind, ok := ErrorToken, false;
      }
    }

    method ReadToken() returns (token: Token)
      requires Valid()
      modifies this`current
      ensures Valid() && token == JsonScanner.ReadToken(features, doc, old(current)) && current == token.end
    {
      SkipSpaces();
      var start := current;
      var c := GetNextChar();
      var kind, ok := ReadLexeme(c);
      if !ok { kind := ErrorToken; }
      token := Token(kind, start, current);
    }

    /** The loops that read on while the token is a comment. */
    method ReadPastComments(first: Token) returns (token: Token)
      requires Valid() && current == first.end
      modifies this`current
      ensures Valid() && token == SkipComments(features, doc, first) && current == token.end
    {
      token := first;
      while token.kind == CommentToken
        invariant Valid() && current == token.end
        invariant SkipComments(features, doc, token) == SkipComments(features, doc, first)
        decreases |doc| - current, token.kind == CommentToken
      {
        token := ReadToken();
      }
    }

    method SkipCommentTokens() returns (token: Token)
      requires Valid()
      modifies this`current
      ensures Valid() && token == NextToken(features, doc, old(current)) && current == token.end
    {
      token := ReadToken();
      if features.allowComments {
        token := ReadPastComments(token);
      }
    }

    // ----- decoding ------------------------------------------------------------------------

    method AddError(token: Token, message: P.Message, extra: nat)
      modifies this`errors
      ensures St() == P.AddError(old(St()), token, message, extra)
    {
      errors := errors + [P.Error(token, message, extra)];
    }

    method DecodeEscapeSequence(p: nat, end: nat) returns (r: Escape)
      requires p <= end <= |doc|
      ensures r == EscapeSequence(doc, p, end)
    {
      if end - p < 4 { return Broken(FourDigitsExpected, p); }
      var cur := p;
      var unicode: nat := 0;
      for index := 0 to 4
        invariant cur == p + index
        invariant ReadHex(doc, cur, 4 - index, unicode) == ReadHex(doc, p, 4, 0)
      {
        var c := doc[cur];
        cur := cur + 1;
        if HexValue(c) < 0 { return Broken(HexDigitExpected, cur); }
        unicode := unicode * 16 + HexValue(c);
      }
      r := Escape(unicode, cur);
    }

    method DecodeCodePoint(p: nat, end: nat) returns (r: Escape)
      requires p <= end <= |doc|
      ensures r == EscapedCodePoint(doc, p, end)
    {
      r := DecodeEscapeSequence(p, end);
      if r.Broken? { return; }
      if 0xD800 <= r.code <= 0xDBFF {
        var unicode, cur := r.code, r.next;
        if end - cur < 6 { return Broken(SixCharactersExpected, cur); }
        if doc[cur] != BACKSLASH { return Broken(SecondHalfExpected, cur + 1); }
        if doc[cur + 1] != 'u' { return Broken(SecondHalfExpected, cur + 2); }
        r := DecodeEscapeSequence(cur + 2, end);
        if r.Escape? {
          r := Escape(0x10000 + unicode % 0x400 * 0x400 + r.code % 0x400, r.next);
        }
      }
    }

    /** One escape of decodeString; `p` is behind the backslash. */
    method DecodeEscape(token: Token, p: nat, end: nat) returns (step: Decoded, next: nat)
      requires 0 < p <= end <= |doc| && doc[p - 1] == BACKSLASH
      modifies this`errors
      ensures step.Decoded? ==>
        p < next <= end && DecodeChars(doc, p - 1, end) == Prepend(step.text, DecodeChars(doc, next, end))
      ensures step.Undecodable? ==> DecodeChars(doc, p - 1, end) == step
      ensures St() == if step.Decoded? then old(St()) else P.AddError(old(St()), token, P.BadString(step.error), step.extra)
    {
      next := p;
      if p == end {
        step := Undecodable(EmptyEscape, p);
      } else if doc[p] == 'u' {
        var e := DecodeCodePoint(p + 1, end);
        if e.Broken? {
          step := Undecodable(e.error, e.extra);
        } else {
          step, next := Decoded(Utf8(e.code)), e.next;
        }
      } else {
        var simple := SimpleEscape(doc[p]);
        if simple.None? {
          step := Undecodable(BadEscape, p + 1);
        } else {
          step, next := Decoded([simple.value]), p + 1;
        }
      }
      if step.Undecodable? { AddError(token, P.BadString(step.error), step.extra); }
    }

    /** decodeString: on failure the error is recorded. */
    method DecodeString(token: Token) returns (r: Decoded)
      requires token.start + 2 <= token.end <= |doc|
      modifies this`errors
      ensures r == P.DecodeString(doc, token)
      ensures St() == if r.Decoded? then old(St()) else P.AddError(old(St()), token, P.BadString(r.error), r.extra)
    {
      hide EscapedCodePoint, Utf8, SimpleEscape;
      var decoded := "";
      var cur, end := token.start + 1, token.end - 1;
      PrependNothing(DecodeChars(doc, cur, end));
      while cur != end
        invariant token.start + 1 <= cur <= end
        invariant St() == old(St())
        invariant Prepend(decoded, DecodeChars(doc, cur, end)) == DecodeChars(doc, token.start + 1, end)
        decreases end - cur
      {
        var c := doc[cur];
        cur := cur + 1;
        if c == QUOTE {
          assert decoded + [] == decoded;
          return Decoded(decoded);
        } else if c == BACKSLASH {
          var step, next := DecodeEscape(token, cur, end);
          if step.Undecodable? { return step; }
          PrependTwice(decoded, step.text, DecodeChars(doc, next, end));
          decoded, cur := decoded + step.text, next;
        } else {
          PrependTwice(decoded, [c], DecodeChars(doc, cur, end));
          decoded := decoded + [c];
        }
      }
      assert decoded + [] == decoded;
      r := Decoded(decoded);
    }

    /** decodeNumber into a Value; decodeDouble's failure is recorded. */
    method DecodeNumber(token: Token) returns (r: P.NumberResult)
      requires token.start <= token.end <= |doc|
      modifies this`errors
      ensures r == P.DecodeNumber(features, P.TokenText(doc, token))
      ensures St() == if r.Number? then old(St()) else P.AddError(old(St()), token, r.message, 0)
    {
      var text := doc[token.start..token.end];
      var n := DecodeInteger(text);
      if n.Some? { return P.Number(n.value); }
      var d := features.scanDouble(text);
      if d.Some? { return P.Number(Real(d.value)); }
      r := P.NoNumber(P.NotANumber(text));
      AddError(token, P.NotANumber(text), 0);
    }

    method RecoverFromError(until: TokenType)
      requires Valid()
      modifies this`current
      ensures Valid() && current == Recover(features, doc, old(current), until)
    {
      var skip := ReadToken();
      while skip.kind != until && skip.kind != EndOfStream
        invariant Valid() && current == skip.end
        invariant Recover(features, doc, old(current), until)
               == if skip.kind == until || skip.kind == EndOfStream then current
                  else Recover(features, doc, current, until)
        decreases |doc| - current, skip.kind != EndOfStream
      {
        skip := ReadToken();
      }
    }

    method AddErrorAndRecover(token: Token, message: P.Message, until: TokenType)
      requires Valid()
      modifies this`current, this`errors
      ensures Valid()
      ensures St() == P.AddError(old(St()), token, message, 0).(cur := Recover(features, doc, old(current), until))
    {
      AddError(token, message, 0);
      RecoverFromError(until);
    }

    // ----- values --------------------------------------------------------------------------

    ghost function Below(): seq<Value>
      requires nodes != []
      reads this
    {
      nodes[..|nodes| - 1]
    }

    /** The call ended as the function says: same result, cursor, depth and errors, and the
        stack as before except for the value on top. */
    ghost predicate Ended(s: Status, spec: P.Outcome, below: seq<Value>)
      reads this
    {
      match spec
      case Thrown => s == Exception
      case Done(ok, st, value) => s == Returned(ok) && Valid() && St() == st && nodes == below + [value]
    }

    /** swapPayload on the current value. */
    method SetTop(v: Value)
      requires Valid()
      modifies this`nodes
      ensures Valid() && nodes == old(Below()) + [v]
    {
      nodes := nodes[..|nodes| - 1] + [v];
    }

    /** decodeNumber(Token&). */
    method StoreNumber(token: Token) returns (s: Status)
      requires Valid() && token.start <= token.end <= |doc|
      modifies this`errors, this`nodes
      ensures Ended(s, P.ReadNumber(features, doc, token, old(St()), old(Top())), old(Below()))
    {
      var n := DecodeNumber(token);
      if n.NoNumber? { return Returned(false); }
      SetTop(n.value);
      s := Returned(true);
    }

    /** decodeString(Token&). */
    method StoreString(token: Token) returns (s: Status)
      requires Valid() && token.start + 2 <= token.end <= |doc|
      modifies this`errors, this`nodes
      ensures Ended(s, P.ReadString(doc, token, old(St()), old(Top())), old(Below()))
    {
      var d := DecodeString(token);
      if d.Undecodable? { return Returned(false); }
      if |d.text| > MAX_STRING { return Exception; }
      SetTop(String(d.text));
      s := Returned(true);
    }

    method ReadValue() returns (s: Status)
      requires Valid()
      modifies this`current, this`nodes, this`errors, this`depth
      ensures Ended(s, P.ReadValue(features, doc, old(St()), old(Top())), old(Below()))
      decreases |doc| - current, 0
    {
      hide P.ReadValue, NextToken, P.ReadMembers, P.ReadArray, P.ReadScalar, P.AddError, P.Started;
      P.ValueByToken(features, doc, St(), Top());
      if depth >= features.stackLimit { return Exception; }
      depth := depth + 1;
      var token := SkipCommentTokens();
      if token.kind != ObjectBegin && token.kind != ArrayBegin && !P.StartsScalar(features, token.kind) {
        AddError(token, P.ValueExpected, 0);
        return Returned(false);
      }
      s := ReadStarted(token);
      if s == Exception { return; }
      depth := depth - 1;
    }

    /** The cases of the switch in readValue that read on; none of them leaves the depth below where it was. */
    method ReadStarted(token: Token) returns (s: Status)
      requires Valid() && 1 <= depth && token.start < token.end == current
      requires token.kind == ObjectBegin || token.kind == ArrayBegin || P.StartsScalar(features, token.kind)
      requires token.kind == StringToken ==> token.start + 2 <= token.end
      requires P.DroppedNull(features, token.kind) ==> token.end == token.start + 1
      modifies this`current, this`nodes, this`errors, this`depth
      ensures Ended(s, P.Started(features, doc, token, old(St()), old(Top())), old(Below()))
      ensures s != Exception ==> old(depth) <= depth
      decreases |doc| - current, 4
    {
      hide P.ReadMembers, P.ReadArray, P.ReadScalar, P.StartsScalar;
      if token.kind == ObjectBegin {
        R.ReadMembersOrderly(features, doc, St(), Nil, []);
        s := ReadObject();
      } else if token.kind == ArrayBegin {
        R.ReadArrayOrderly(features, doc, St());
        s := ReadArray();
      } else {
        R.ScalarOrderly(features, doc, token, St(), Top());
        s := StoreScalar(token);
      }
    }

    /** The scalar cases of the switch in readValue. */
    method StoreScalar(token: Token) returns (s: Status)
      requires Valid() && token.start <= token.end == current && P.StartsScalar(features, token.kind)
      requires token.kind == StringToken ==> token.start + 2 <= token.end
      requires P.DroppedNull(features, token.kind) ==> token.end == token.start + 1
      modifies this`current, this`errors, this`nodes
      ensures Ended(s, P.ReadScalar(features, doc, token, old(St()), old(Top())), old(Below()))
    {
      hide P.ReadNumber, P.ReadString;
      if token.kind == NumberToken {
        s := StoreNumber(token);
      } else if token.kind == StringToken {
        s := StoreString(token);
      } else if P.Literal(token.kind).Some? {
        SetTop(P.Literal(token.kind).value);
        s := Returned(true);
      } else {
        current := current - 1;
        SetTop(Null);
        s := Returned(true);
      }
    }

    /** `currentValue()[key]`, push, readValue, pop: the child's value is stored under its key. */
    method ReadChild(k: Key) returns (s: Status)
      requires Valid() && 1 <= depth && (Top().Array? || Top().Object?)
      modifies this`current, this`nodes, this`errors, this`depth
      ensures var spec := P.ReadValue(features, doc, old(St()), P.Resolve(old(Top()).entries, k));
        Ended(s, Stored(spec, old(Top()), k), old(Below()))
      decreases |doc| - current, 1
    {
      hide P.ReadValue;
      var parent := Top();
      nodes := nodes + [P.Resolve(parent.entries, k)];
      assert Below() == old(nodes);
      s := ReadValue();
      if s == Exception { return; }
      var child := Top();
      nodes := nodes[..|nodes| - 1];
      assert nodes == old(nodes);
      SetTop(WithEntries(parent, Put(parent.entries, k, child)));
    }

    method ReadArray() returns (s: Status)
      requires Valid() && 1 <= depth
      modifies this`current, this`nodes, this`errors, this`depth
      ensures Ended(s, P.ReadArray(features, doc, old(St())), old(Below()))
      decreases |doc| - current, 3
    {
      hide P.ReadElements, P.ReadValue, JsonScanner.SkipSpaces, JsonScanner.ReadToken;
      SetTop(Array(Nil));
      SkipSpaces();
      if CharAt(doc, current) == ']' {
        var endArray := ReadToken();
        return Returned(true);
      }
      s := ReadElements();
    }

    /** The loop of readArray. */
    method ReadElements() returns (s: Status)
      requires Valid() && 1 <= depth && Top() == Array(Nil)
      modifies this`current, this`nodes, this`errors, this`depth
      ensures Ended(s, P.ReadElements(features, doc, old(St()), Nil, 0), old(Below()))
      decreases |doc| - current, 2
    {
      hide P.ReadElements, P.ReadValue, JsonScanner.ReadToken, SkipComments, Recover, Put, P.Resolve;
      var index := 0;
      while true
        invariant Valid() && 1 <= depth && old(current) <= current && 0 <= index
        invariant Top().Array? && nodes == old(Below()) + [Top()]
        invariant P.ReadElements(features, doc, St(), Top().entries, index)
               == P.ReadElements(features, doc, old(St()), Nil, 0)
        decreases |doc| - current
      {
        P.ElementsByToken(features, doc, St(), Top().entries, index);
        if index > MAX_INT { return Exception; }
        R.ReadValueOrderly(features, doc, St(), P.Resolve(Top().entries, Index(index)));
        s := ReadChild(Index(index));
        index := index + 1;
        if s == Exception { return; }
        if !s.ok {
          RecoverFromError(ArrayEnd);
          return;
        }
        var token := ReadToken();
        token := ReadPastComments(token);
        if token.kind != ArraySeparator && token.kind != ArrayEnd {
          AddErrorAndRecover(token, P.ArrayCommaMissing, ArrayEnd);
          return Returned(false);
        }
        if token.kind == ArrayEnd { return; }
      }
    }

    /** The name part of readObject's loop. */
    method DecodeName(token: Token) returns (n: P.NameResult)
      requires Valid() && token.start <= token.end <= |doc| && P.IsName(features, token)
      requires token.kind == StringToken ==> token.start + 2 <= token.end
      modifies this`errors
      ensures Valid() && n == P.NameOf(features, doc, token)
      ensures St() == if n.NoName? then P.AddError(old(St()), token, n.message, n.extra) else old(St())
    {
      if token.kind == StringToken {
        var d := DecodeString(token);
        if d.Decoded? { n := P.MemberName(d.text); } else { n := P.NoName(P.BadString(d.error), d.extra); }
      } else {
        var number := DecodeNumber(token);
        if number.NoNumber? {
          n := P.NoName(number.message, 0);
        } else if !features.ours {
          n := P.NameThrown;
        } else {
          n := P.MemberName(P.NumberName(features, number.value));
        }
      }
    }

    /** Behind the value of a member.  `more` tells readObject's loop to go on. */
    method ReadMemberEnd(name: string) returns (s: Status, more: bool)
      requires Valid() && 1 <= depth && Top().Object?
      modifies this`current, this`errors
      ensures more ==> Valid() && old(current) < current && St() == old(St()).(cur := current)
      ensures more ==>
        P.ReadMembers(features, doc, St(), Top().entries, name) == P.MemberEnd(features, doc, old(St()), Top().entries, name)
      ensures !more ==> Ended(s, P.MemberEnd(features, doc, old(St()), Top().entries, name), Below())
    {
      hide P.ReadMembers, JsonScanner.ReadToken, SkipComments, Recover;
      var comma := ReadToken();
      if comma.kind != ObjectEnd && comma.kind != ArraySeparator && comma.kind != CommentToken {
        AddErrorAndRecover(comma, P.ObjectCommaMissing, ObjectEnd);
        return Returned(false), false;
      }
      comma := ReadPastComments(comma);
      s, more := Returned(true), comma.kind != ObjectEnd;
    }

    method ReadObject() returns (s: Status)
      requires Valid() && 1 <= depth
      modifies this`current, this`nodes, this`errors, this`depth
      ensures Ended(s, P.ReadMembers(features, doc, old(St()), Nil, []), old(Below()))
      decreases |doc| - current, 3
    {
      hide P.ReadMembers;
      SetTop(Object(Nil));
      s := Returned(true);
      var name := "";
      var more := true;
      while more
        invariant more ==> Valid() && 1 <= depth && old(current) <= current
        invariant more ==> Top().Object? && nodes == old(Below()) + [Top()]
        invariant more ==>
          P.ReadMembers(features, doc, St(), Top().entries, name) == P.ReadMembers(features, doc, old(St()), Nil, [])
        invariant !more ==> Ended(s, P.ReadMembers(features, doc, old(St()), Nil, []), old(Below()))
        decreases more, |doc| - current
      {
        s, more, name := ReadMember(name);
      }
    }

    /** One round of readObject's loop. */
    method ReadMember(last: string) returns (s: Status, more: bool, name: string)
      requires Valid() && 1 <= depth && Top().Object?
      modifies this`current, this`nodes, this`errors, this`depth
      ensures more ==> Valid() && 1 <= depth && old(current) < current && Top().Object? && Below() == old(Below())
      ensures more ==>
        P.ReadMembers(features, doc, St(), Top().entries, name)
        == P.ReadMembers(features, doc, old(St()), old(Top()).entries, last)
      ensures !more ==> Ended(s, P.ReadMembers(features, doc, old(St()), old(Top()).entries, last), old(Below()))
      decreases |doc| - current, 2
    {
      hide P.ReadMembers, P.ReadNamed, JsonScanner.ReadToken, SkipComments, Recover, P.NameOf, P.IsName;
      P.MembersByToken(features, doc, St(), Top().entries, last);
      var token := ReadToken();
      token := ReadPastComments(token);
      name := "";
      if token.kind == ObjectEnd && last == "" { return Returned(true), false, name; }
      if !P.IsName(features, token) {
        AddErrorAndRecover(token, P.MemberNameMissing, ObjectEnd);
        return Returned(false), false, name;
      }
      var n := DecodeName(token);
      if n.NameThrown? { return Exception, false, name; }
      if n.NoName? {
        RecoverFromError(ObjectEnd);
        return Returned(false), false, name;
      }
      name := n.name;
      s, more := ReadNamed(token, name);
    }

    /** The rest of the round: colon, value, and what follows it. */
    method ReadNamed(token: Token, name: string) returns (s: Status, more: bool)
      requires Valid() && 1 <= depth && Top().Object?
      modifies this`current, this`nodes, this`errors, this`depth
      ensures more ==> Valid() && 1 <= depth && old(current) < current && Top().Object? && Below() == old(Below())
      ensures more ==>
        P.ReadMembers(features, doc, St(), Top().entries, name)
        == P.ReadNamed(features, doc, old(St()), old(Top()).entries, token, name)
      ensures !more ==> Ended(s, P.ReadNamed(features, doc, old(St()), old(Top()).entries, token, name), old(Below()))
      decreases |doc| - current, 2
    {
      hide P.ReadMembers, P.ReadValue, P.MemberEnd, JsonScanner.ReadToken, Recover, Put, P.Resolve, Find, P.StoredName;
      more := false;
      var colon := ReadToken();
      if colon.kind != MemberSeparator {
        AddErrorAndRecover(colon, P.ColonMissing, ObjectEnd);
        return Returned(false), false;
      }
      if features.ours && |name| >= NAME_LIMIT { return Exception, false; }
      var k := P.StoredName(name);
      if features.ours && features.rejectDupKeys && Find(Top().entries, k).Some? {
        AddErrorAndRecover(token, P.DuplicateKey(name), ObjectEnd);
        return Returned(false), false;
      }
      R.ReadValueOrderly(features, doc, St(), P.Resolve(Top().entries, k));
      s := ReadChild(k);
      if s == Exception { return; }
      if !s.ok {
        RecoverFromError(ObjectEnd);
        return;
      }
      s, more := ReadMemberEnd(name);
    }

    /** parse: clears the reader, reads one value into the root and looks at what follows.
        The last three clauses are the run invariant: the cursor stays inside the document, the
        result says whether errors were recorded, and the root is the only node left. */
    method Parse(document: string, root: Value) returns (s: Status, result: Value)
      modifies this
      ensures match P.Parse(features, document, root)
        case Thrown => s == Exception
        case Done(ok, st, value) =>
          s == Returned(ok) && result == value && St() == st && nodes == [value] && doc == document
      ensures s != Exception ==> Valid() && (s.ok <==> errors == []) && (s.ok ==> depth == 0)
    {
      hide NextToken, P.ReadValue;
      R.ParseRun(features, document, root);
      doc, current, errors, depth := document, 0, [], 0;
      nodes := [root];
      result := root;
      s := ReadValue();
      if s == Exception { return; }
      assert Below() == [];
      result := Top();
      var token := SkipCommentTokens();
      if features.ours && features.failIfExtra && token.kind != ErrorToken && token.kind != EndOfStream {
        AddError(token, P.ExtraText, 0);
        return Returned(false), result;
      }
      if features.strictRoot && !result.Array? && !result.Object? {
        AddError(Token(ErrorToken, 0, |doc|), P.RootNotContainer, 0);
        return Returned(false), result;
      }
    }
  }

  /** The container with other entries. */
  function WithEntries(v: Value, e: Entries): Value
    requires v.Array? || v.Object?
  {
    if v.Array? then Array(e) else Object(e)
  }

  /** The outcome of reading a child, seen as its parent's value. */
  function Stored(r: P.Outcome, parent: Value, k: Key): P.Outcome
    requires parent.Array? || parent.Object?
  {
    if r.Done? then r.(value := WithEntries(parent, Put(parent.entries, k, r.value))) else r
  }

  lemma PrependTwice(a: string, b: string, d: Decoded)
    ensures Prepend(a + b, d) == Prepend(a, Prepend(b, d))
  {
    if d.Decoded? { assert a + b + d.text == a + (b + d.text); }
  }

  lemma PrependNothing(d: Decoded)
    ensures Prepend("", d) == d
  {
    if d.Decoded? { assert "" + d.text == d.text; }
  }
}
