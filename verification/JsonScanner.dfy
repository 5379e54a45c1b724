/** Tokens of the JSON readers, as functions of the document and a position.

    `Json::Reader` and `Json::OurReader` are two copies of one parser.  `Features.ours` tells
    them apart where they differ; the other flags are OurFeatures'.  Reading at the end of the
    document yields NUL, the sentinel the readers rely on. */
module JsonScanner {
  import opened JsonValue
  import opened JsonNumber
  import opened JsonString

  /** `scanDouble` stands for the library call behind decodeDouble: the bits of the double a
      text denotes, or nothing.  `realText` is the text asString() gives for such a double. */
  datatype Features = Features(
    ours: bool,
    allowComments: bool,
    strictRoot: bool,
    allowDroppedNullPlaceholders: bool,
    allowNumericKeys: bool,
    allowSingleQuotes: bool,
    failIfExtra: bool,
    rejectDupKeys: bool,
    allowSpecialFloats: bool,
    stackLimit: int,
    scanDouble: string -> Option<nat>,
    realText: nat -> string)

  datatype TokenType =
    | EndOfStream | ObjectBegin | ObjectEnd | ArrayBegin | ArrayEnd | StringToken | NumberToken
    | TrueToken | FalseToken | NullToken | NaNToken | PosInfToken | NegInfToken
    | ArraySeparator | MemberSeparator | CommentToken | ErrorToken

  datatype Token = Token(kind: TokenType, start: nat, end: nat)

  /** What the kind of a token says about its length. */
  predicate Shaped(t: Token) {
    && t.start <= t.end
    && (t.kind != EndOfStream ==> t.start < t.end)
    && (t.kind == ArraySeparator || t.kind == ObjectEnd || t.kind == ArrayEnd ==> t.end == t.start + 1)
    && (t.kind == StringToken ==> t.start + 2 <= t.end)
  }

  function CharAt(doc: string, p: nat): char {
    if p < |doc| then doc[p] else NUL
  }

  predicate IsSpace(c: char) { c == ' ' || c == '\t' || c == '\r' || c == '\n' }

  function SkipSpaces(doc: string, p: nat): (q: nat)
    requires p <= |doc|
    ensures p <= q <= |doc|
    ensures q < |doc| ==> !IsSpace(doc[q])
    decreases |doc| - p
  {
    if p < |doc| && IsSpace(doc[p]) then SkipSpaces(doc, p + 1) else p
  }

  /** match: the pattern is consumed only when all of it is there. */
  function Match(doc: string, p: nat, pattern: string): (r: Scan)
    requires p <= |doc|
    ensures p <= r.next <= |doc|
  {
    if |doc| - p < |pattern| || doc[p..p + |pattern|] != pattern then Scan(false, p)
    else Scan(true, p + |pattern|)
  }

  // ----- comments ------------------------------------------------------------------------

  /** readCStyleComment: behind the first star that a slash follows, then that slash. */
  function CStyleComment(doc: string, p: nat): (r: Scan)
    requires p <= |doc|
    ensures p <= r.next <= |doc|
    decreases |doc| - p
  {
    if p == |doc| then Scan(false, p)
    else if doc[p] == '*' && CharAt(doc, p + 1) == '/' then Scan(true, p + 2)
    else CStyleComment(doc, p + 1)
  }

  /** readCppStyleComment: behind the end of the line. */
  function CppStyleComment(doc: string, p: nat): (q: nat)
    requires p <= |doc|
    ensures p <= q <= |doc|
    decreases |doc| - p
  {
    if p == |doc| then p
    else if doc[p] == '\n' then p + 1
    else if doc[p] == '\r' then if CharAt(doc, p + 1) == '\n' then p + 2 else p + 1
    else CppStyleComment(doc, p + 1)
  }

  /** readComment, from behind the first slash. */
  function Comment(doc: string, p: nat): (r: Scan)
    requires p <= |doc|
    ensures p <= r.next <= |doc|
  {
    if p == |doc| then Scan(false, p)
    else if doc[p] == '*' then CStyleComment(doc, p + 1)
    else if doc[p] == '/' then Scan(true, CppStyleComment(doc, p + 1))
    else Scan(false, p + 1)
  }

  // ----- numbers -------------------------------------------------------------------------

  function SkipDigits(doc: string, p: nat): (q: nat)
    requires p <= |doc|
    ensures p <= q <= |doc|
    decreases |doc| - p
  {
    if p < |doc| && IsDigit(doc[p]) then SkipDigits(doc, p + 1) else p
  }

  function Fraction(doc: string, p: nat): (q: nat)
    requires p <= |doc|
    ensures p <= q <= |doc|
  {
    if CharAt(doc, p) == '.' then SkipDigits(doc, p + 1) else p
  }

  function Exponent(doc: string, p: nat): (q: nat)
    requires p <= |doc|
    ensures p <= q <= |doc|
  {
    if CharAt(doc, p) == 'e' || CharAt(doc, p) == 'E' then
      if CharAt(doc, p + 1) == '+' || CharAt(doc, p + 1) == '-' then SkipDigits(doc, p + 2)
      else SkipDigits(doc, p + 1)
    else p
  }

  /** readNumber, from behind the first character. */
  function NumberEnd(doc: string, p: nat): (q: nat)
    requires p <= |doc|
    ensures p <= q <= |doc|
  {
    Exponent(doc, Fraction(doc, SkipDigits(doc, p)))
  }

  /** OurReader reads "-I" as the start of -Infinity. */
  predicate StartsInfinity(f: Features, doc: string, p: nat) {
    f.ours && CharAt(doc, p) == 'I'
  }

  // ----- readToken -----------------------------------------------------------------------

  datatype Lexeme = Lexeme(kind: TokenType, ok: bool, next: nat)

  function Word(kind: TokenType, s: Scan): Lexeme {
    Lexeme(kind, s.ok, s.next)
  }

  predicate Punctuation(c: char) {
    c == '{' || c == '}' || c == '[' || c == ']' || c == ',' || c == ':'
  }

  function PunctuationType(c: char): TokenType
    requires Punctuation(c)
  {
    if c == '{' then ObjectBegin
    else if c == '}' then ObjectEnd
    else if c == '[' then ArrayBegin
    else if c == ']' then ArrayEnd
    else if c == ',' then ArraySeparator
    else MemberSeparator
  }

  /** The switch of readToken on the first character `c`, with `p` behind it.  In OurReader a
      single quote that may not open a string falls through to the comment case. */
  function Lex(f: Features, doc: string, c: char, p: nat): (r: Lexeme)
    requires p <= |doc|
    ensures p <= r.next <= |doc|
    ensures Punctuation(c) ==> r == Lexeme(PunctuationType(c), true, p)
    ensures !Punctuation(c) && r.ok ==> r.kind !in {ObjectBegin, ObjectEnd, ArrayBegin, ArrayEnd, ArraySeparator, MemberSeparator}
    ensures r.ok && r.kind == EndOfStream ==> c == NUL
    ensures r.ok && r.kind == StringToken ==> p < r.next
    ensures r.kind != ErrorToken || !r.ok
  {
    if Punctuation(c) then Lexeme(PunctuationType(c), true, p)
    else if c == QUOTE then Word(StringToken, ScanString(doc, p, QUOTE))
    else if c == '\'' && f.ours && f.allowSingleQuotes then Word(StringToken, ScanString(doc, p, '\''))
    else if c == '/' || (c == '\'' && f.ours) then Word(CommentToken, Comment(doc, p))
    else if c == '-' && StartsInfinity(f, doc, p) then
      if f.allowSpecialFloats then Word(NegInfToken, Match(doc, p + 1, "nfinity"))
      else Lexeme(NegInfToken, false, p + 1)
    else if c == '-' || IsDigit(c) then Lexeme(NumberToken, true, NumberEnd(doc, p))
    else if c == 't' then Word(TrueToken, Match(doc, p, "rue"))
    else if c == 'f' then Word(FalseToken, Match(doc, p, "alse"))
    else if c == 'n' then Word(NullToken, Match(doc, p, "ull"))
    else if c == 'N' && f.ours && f.allowSpecialFloats then Word(NaNToken, Match(doc, p, "aN"))
    else if c == 'I' && f.ours && f.allowSpecialFloats then Word(PosInfToken, Match(doc, p, "nfinity"))
    else if c == NUL then Lexeme(EndOfStream, true, p)
    else Lexeme(ErrorToken, false, p)
  }

  function ReadToken(f: Features, doc: string, p: nat): (t: Token)
    requires p <= |doc|
    ensures p <= t.start && t.end <= |doc| && Shaped(t)
  {
    var start := SkipSpaces(doc, p);
    var r := Lex(f, doc, CharAt(doc, start), if start < |doc| then start + 1 else start);
    Token(if r.ok then r.kind else ErrorToken, start, r.next)
  }

  /** Reads on while the token is a comment. */
  function SkipComments(f: Features, doc: string, t: Token): (r: Token)
    requires t.end <= |doc|
    ensures r == t || (t.kind == CommentToken && t.end <= r.start && r.end <= |doc| && Shaped(r))
    ensures r.kind != CommentToken
    decreases |doc| - t.end, t.kind == CommentToken
  {
    if t.kind == CommentToken then SkipComments(f, doc, ReadToken(f, doc, t.end)) else t
  }

  /** skipCommentTokens. */
  function NextToken(f: Features, doc: string, p: nat): (t: Token)
    requires p <= |doc|
    ensures p <= t.start && t.end <= |doc| && Shaped(t)
  {
    var t := ReadToken(f, doc, p);
    if f.allowComments then SkipComments(f, doc, t) else t
  }

  /** recoverFromError: behind the first token of the wanted kind, or at the end of the stream. */
  function Recover(f: Features, doc: string, p: nat, until: TokenType): (q: nat)
    requires p <= |doc|
    ensures p <= q <= |doc|
    decreases |doc| - p
  {
    var t := ReadToken(f, doc, p);
    if t.kind == until || t.kind == EndOfStream then t.end else Recover(f, doc, t.end, until)
  }
}
