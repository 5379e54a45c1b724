/** What the readers do: readValue, readObject, readArray and parse as functions.

    The run of a reader is described by the cursor, the depth counter and the error list, and
    by the value being filled in.  An exception is the outcome `Thrown`. */
module JsonParser {
  import opened JsonValue
  import opened JsonNumber
  import opened JsonString
  import opened JsonScanner

  datatype Message =
    | ValueExpected | ColonMissing | ObjectCommaMissing | MemberNameMissing | ArrayCommaMissing
    | DuplicateKey(name: string) | NotANumber(text: string) | BadString(why: StringError)
    | ExtraText | RootNotContainer

  datatype Error = Error(token: Token, message: Message, extra: nat)

  datatype State = State(cur: nat, depth: int, errors: seq<Error>)

  datatype Outcome =
    | Done(ok: bool, st: State, value: Value)
    | Thrown

  /** Fields of the outcome that a run has to keep in order. */
  ghost predicate InDocument(doc: string, from: nat, r: Outcome) {
    r.Done? ==> from <= r.st.cur <= |doc|
  }

  function AddError(st: State, t: Token, m: Message, extra: nat): State {
    st.(errors := st.errors + [Error(t, m, extra)])
  }

  // ----- scalars -------------------------------------------------------------------------

  datatype NumberResult = Number(value: Value) | NoNumber(message: Message)

  function TokenText(doc: string, t: Token): string
    requires t.start <= t.end <= |doc|
  {
    doc[t.start..t.end]
  }

  /** decodeNumber: an integer where possible, else whatever decodeDouble makes of the text. */
  function DecodeNumber(f: Features, text: string): NumberResult {
    var n := IntegerOf(text);
    if n.Some? then Number(n.value)
    else
      var d := f.scanDouble(text);
      if d.Some? then Number(Real(d.value)) else NoNumber(NotANumber(text))
  }

  /** decodeString on a string token. */
  function DecodeString(doc: string, t: Token): Decoded
    requires t.start + 2 <= t.end <= |doc|
  {
    DecodeChars(doc, t.start + 1, t.end - 1)
  }

  const NAN_BITS: nat := 0x7FF8_0000_0000_0000
  const POS_INF_BITS: nat := 0x7FF0_0000_0000_0000
  const NEG_INF_BITS: nat := 0xFFF0_0000_0000_0000

  /** The values that readValue stores for the literal tokens. */
  function Literal(kind: TokenType): Option<Value> {
    match kind
    case TrueToken => Some(Bool(true))
    case FalseToken => Some(Bool(false))
    case NullToken => Some(Null)
    case NaNToken => Some(Real(NAN_BITS))
    case PosInfToken => Some(Real(POS_INF_BITS))
    case NegInfToken => Some(Real(NEG_INF_BITS))
    case _ => None
  }

  function ReadNumber(f: Features, doc: string, t: Token, st: State, prior: Value): Outcome
    requires t.start <= t.end <= |doc|
  {
    var n := DecodeNumber(f, TokenText(doc, t));
    if n.Number? then Done(true, st, n.value) else Done(false, AddError(st, t, n.message, 0), prior)
  }

  /** A decoded string that is too long for a Value makes its constructor throw. */
  function ReadString(doc: string, t: Token, st: State, prior: Value): Outcome
    requires t.start + 2 <= t.end <= |doc|
  {
    var d := DecodeString(doc, t);
    if d.Undecodable? then Done(false, AddError(st, t, BadString(d.error), d.extra), prior)
    else if |d.text| > MAX_STRING then Thrown
    else Done(true, st, String(d.text))
  }

  /** A separator or closing token where a value is expected may stand for null. */
  predicate DroppedNull(f: Features, kind: TokenType) {
    f.allowDroppedNullPlaceholders && (kind == ArraySeparator || kind == ObjectEnd || kind == ArrayEnd)
  }

  predicate StartsScalar(f: Features, kind: TokenType) {
    kind == NumberToken || kind == StringToken || Literal(kind).Some? || DroppedNull(f, kind)
  }

  /** The scalar cases of readValue's switch; a dropped null's token is un-read. */
  function ReadScalar(f: Features, doc: string, t: Token, st: State, prior: Value): (r: Outcome)
    requires t.start <= t.end <= |doc| && (t.kind == StringToken ==> t.start + 2 <= t.end)
    requires StartsScalar(f, t.kind)
  {
    if t.kind == NumberToken then ReadNumber(f, doc, t, st, prior)
    else if t.kind == StringToken then ReadString(doc, t, st, prior)
    else if Literal(t.kind).Some? then Done(true, st, Literal(t.kind).value)
    else Done(true, st.(cur := t.start), Null)
  }

  /** recoverFromError and addErrorAndRecover: the outcome is a failure. */
  function Fail(f: Features, doc: string, st: State, until: TokenType, value: Value): Outcome
    requires st.cur <= |doc|
  {
    Done(false, st.(cur := Recover(f, doc, st.cur, until)), value)
  }

  /** `--stackDepth_` behind the switch of readValue. */
  function Leave(r: Outcome): Outcome {
    if r.Done? then r.(st := r.st.(depth := r.st.depth - 1)) else r
  }

  // ----- object member names ---------------------------------------------------------------

  datatype NameResult = MemberName(name: string) | NoName(message: Message, extra: nat) | NameThrown

  /** The member name a token stands for.  Numeric names go through asString() in OurReader;
      Reader calls asCString() on a number, which throws. */
  function NameOf(f: Features, doc: string, t: Token): NameResult
    requires t.start <= t.end <= |doc|
    requires t.kind == StringToken ==> t.start + 2 <= t.end
  {
    if t.kind == StringToken then
      var d := DecodeString(doc, t);
      if d.Decoded? then MemberName(d.text) else NoName(BadString(d.error), d.extra)
    else
      var n := DecodeNumber(f, TokenText(doc, t));
      if n.NoNumber? then NoName(n.message, 0)
      else if !f.ours then NameThrown
      else MemberName(NumberName(f, n.value))
  }

  function NumberName(f: Features, v: Value): string {
    match v
    case Int(i) => IntText(i)
    case UInt(u) => IntText(u)
    case Real(x) => f.realText(x)
    case _ => []
  }

  predicate IsName(f: Features, t: Token) {
    t.kind == StringToken || (t.kind == NumberToken && f.allowNumericKeys)
  }

  /** The key a name is stored under: CZString keeps the low 30 bits of the length. */
  function StoredName(name: string): Key {
    Name(name[..|name| % NAME_LIMIT])
  }

  /** `currentValue()[name]` creates a null member when there is none. */
  function Resolve(e: Entries, k: Key): Value {
    var r := Find(e, k);
    if r.Some? then r.value else Null
  }

  // ----- the recursive part ----------------------------------------------------------------

  /** readValue on a current value that holds `prior`. */
  function ReadValue(f: Features, doc: string, st: State, prior: Value): (r: Outcome)
    requires st.cur <= |doc|
    ensures InDocument(doc, st.cur, r)
    decreases |doc| - st.cur, 0
  {
    if st.depth >= f.stackLimit then Thrown
    else
      var t := NextToken(f, doc, st.cur);
      var st1 := st.(cur := t.end, depth := st.depth + 1);
      if t.kind == ObjectBegin then Leave(ReadMembers(f, doc, st1, Nil, []))
      else if t.kind == ArrayBegin then Leave(ReadArray(f, doc, st1))
      else if StartsScalar(f, t.kind) then Leave(ReadScalar(f, doc, t, st1, prior))
      else Done(false, AddError(st1, t, ValueExpected, 0), prior)
  }

  /** The value that starts with token `t`, read from behind it. */
  function Started(f: Features, doc: string, t: Token, st: State, prior: Value): Outcome
    requires st.cur <= |doc| && t.start <= t.end <= |doc| && (t.kind == StringToken ==> t.start + 2 <= t.end)
    requires t.kind == ObjectBegin || t.kind == ArrayBegin || StartsScalar(f, t.kind)
  {
    if t.kind == ObjectBegin then ReadMembers(f, doc, st, Nil, [])
    else if t.kind == ArrayBegin then ReadArray(f, doc, st)
    else ReadScalar(f, doc, t, st, prior)
  }

  /** What readValue does, by the kind of its first token. */
  lemma ValueByToken(f: Features, doc: string, st: State, prior: Value)
    requires st.cur <= |doc|
    ensures var r := ReadValue(f, doc, st, prior);
      var t := NextToken(f, doc, st.cur);
      var inside := st.(cur := t.end, depth := st.depth + 1);
      if st.depth >= f.stackLimit then r == Thrown
      else if t.kind == ObjectBegin || t.kind == ArrayBegin || StartsScalar(f, t.kind) then
        r == Leave(Started(f, doc, t, inside, prior))
      else r == Done(false, AddError(inside, t, ValueExpected, 0), prior)
  {
    hide ReadMembers, ReadArray, ReadScalar, NextToken, StartsScalar, AddError;
  }

  /** The loop of readObject: `e` holds the members so far, `name` the last one's name. */
  function ReadMembers(f: Features, doc: string, st: State, e: Entries, name: string): (r: Outcome)
    requires st.cur <= |doc|
    ensures InDocument(doc, st.cur, r)
    decreases |doc| - st.cur, 1
  {
    var t := SkipComments(f, doc, ReadToken(f, doc, st.cur));
    var st1 := st.(cur := t.end);
    if t.kind == ObjectEnd && name == [] then Done(true, st1, Object(e))
    else if !IsName(f, t) then
      Fail(f, doc, AddError(st1, t, MemberNameMissing, 0), ObjectEnd, Object(e))
    else
      var n := NameOf(f, doc, t);
      if n.NameThrown? then Thrown
      else if n.NoName? then Fail(f, doc, AddError(st1, t, n.message, n.extra), ObjectEnd, Object(e))
      else
        ReadNamed(f, doc, st1, e, t, n.name)
  }

  /** What one turn of readObject's loop does, by its first token and the name this stands for. */
  lemma MembersByToken(f: Features, doc: string, st: State, e: Entries, name: string)
    requires st.cur <= |doc|
    ensures var all := ReadMembers(f, doc, st, e, name);
      var t := SkipComments(f, doc, ReadToken(f, doc, st.cur));
      var st1 := st.(cur := t.end);
      if t.kind == ObjectEnd && name == [] then all == Done(true, st1, Object(e))
      else if !IsName(f, t) then all == Fail(f, doc, AddError(st1, t, MemberNameMissing, 0), ObjectEnd, Object(e))
      else
        t.start < t.end && match NameOf(f, doc, t)
        case NameThrown => all == Thrown
        case NoName(message, extra) => all == Fail(f, doc, AddError(st1, t, message, extra), ObjectEnd, Object(e))
        case MemberName(n) => all == ReadNamed(f, doc, st1, e, t, n)
  {
    hide ReadToken, SkipComments, ReadNamed, NameOf, Recover;
  }

  /** The colon and the value of the member named by token `t`. */
  function ReadNamed(f: Features, doc: string, st: State, e: Entries, t: Token, name: string): (r: Outcome)
    requires st.cur <= |doc|
    ensures InDocument(doc, st.cur, r)
    decreases |doc| - st.cur, 1
  {
    var colon := ReadToken(f, doc, st.cur);
    var st1 := st.(cur := colon.end);
    if colon.kind != MemberSeparator then
      Fail(f, doc, AddError(st1, colon, ColonMissing, 0), ObjectEnd, Object(e))
    else if f.ours && |name| >= NAME_LIMIT then Thrown
    else if f.ours && f.rejectDupKeys && Find(e, StoredName(name)).Some? then
      Fail(f, doc, AddError(st1, t, DuplicateKey(name), 0), ObjectEnd, Object(e))
    else
      var k := StoredName(name);
      var r := ReadValue(f, doc, st1, Resolve(e, k));
      if r.Thrown? then Thrown
      else if !r.ok then Fail(f, doc, r.st, ObjectEnd, Object(Put(e, k, r.value)))
      else MemberEnd(f, doc, r.st, Put(e, k, r.value), name)
  }

  /** Behind a member's value: a comma, the closing brace, or comments and then any token. */
  function MemberEnd(f: Features, doc: string, st: State, e: Entries, name: string): (r: Outcome)
    requires st.cur <= |doc|
    ensures InDocument(doc, st.cur, r)
    decreases |doc| - st.cur, 2
  {
    var comma := ReadToken(f, doc, st.cur);
    if comma.kind !in {ObjectEnd, ArraySeparator, CommentToken} then
      Fail(f, doc, AddError(st.(cur := comma.end), comma, ObjectCommaMissing, 0), ObjectEnd, Object(e))
    else
      var t := SkipComments(f, doc, comma);
      if t.kind == ObjectEnd then Done(true, st.(cur := t.end), Object(e))
      else ReadMembers(f, doc, st.(cur := t.end), e, name)
  }

  function ReadArray(f: Features, doc: string, st: State): (r: Outcome)
    requires st.cur <= |doc|
    ensures InDocument(doc, st.cur, r)
    decreases |doc| - st.cur, 2
  {
    var p := SkipSpaces(doc, st.cur);
    if CharAt(doc, p) == ']' then Done(true, st.(cur := ReadToken(f, doc, p).end), Array(Nil))
    else ReadElements(f, doc, st.(cur := p), Nil, 0)
  }

  /** The loop of readArray.  `index` is an int there: it cannot pass 2^31 - 1. */
  function ReadElements(f: Features, doc: string, st: State, e: Entries, index: nat): (r: Outcome)
    requires st.cur <= |doc|
    ensures InDocument(doc, st.cur, r)
    decreases |doc| - st.cur, 1
  {
    if index > MAX_INT then Thrown
    else
      var r := ReadValue(f, doc, st, Resolve(e, Index(index)));
      if r.Thrown? then Thrown
      else
        var e1 := Put(e, Index(index), r.value);
        if !r.ok then Fail(f, doc, r.st, ArrayEnd, Array(e1))
        else
          var t := SkipComments(f, doc, ReadToken(f, doc, r.st.cur));
          var st1 := r.st.(cur := t.end);
          if t.kind == ArrayEnd then Done(true, st1, Array(e1))
          else if t.kind != ArraySeparator then
            Fail(f, doc, AddError(st1, t, ArrayCommaMissing, 0), ArrayEnd, Array(e1))
          else ReadElements(f, doc, st1, e1, index + 1)
  }

  /** What one turn of readArray's loop does, by the value read and the token behind it. */
  lemma ElementsByToken(f: Features, doc: string, st: State, e: Entries, index: nat)
    requires st.cur <= |doc|
    ensures var all := ReadElements(f, doc, st, e, index);
      var r := ReadValue(f, doc, st, Resolve(e, Index(index)));
      if index > MAX_INT || r.Thrown? then all == Thrown
      else
        var e1 := Put(e, Index(index), r.value);
        if !r.ok then all == Fail(f, doc, r.st, ArrayEnd, Array(e1))
        else
          var t := SkipComments(f, doc, ReadToken(f, doc, r.st.cur));
          var st1 := r.st.(cur := t.end);
          if t.kind == ArrayEnd then all == Done(true, st1, Array(e1))
          else if t.kind == ArraySeparator then all == ReadElements(f, doc, st1, e1, index + 1)
          else all == Fail(f, doc, AddError(st1, t, ArrayCommaMissing, 0), ArrayEnd, Array(e1))
  {
    hide ReadValue, ReadToken, SkipComments, Recover, Put, Resolve;
  }

  /** parse, with collectComments off, into a root that holds `root`. */
  function Parse(f: Features, doc: string, root: Value): Outcome {
    var r := ReadValue(f, doc, State(0, 0, []), root);
    if r.Thrown? then Thrown
    else
      var t := NextToken(f, doc, r.st.cur);
      var st := r.st.(cur := t.end);
      if f.ours && f.failIfExtra && t.kind !in {ErrorToken, EndOfStream} then
        Done(false, AddError(st, t, ExtraText, 0), r.value)
      else if f.strictRoot && !r.value.Array? && !r.value.Object? then
        Done(false, AddError(st, Token(ErrorToken, 0, |doc|), RootNotContainer, 0), r.value)
      else Done(r.ok, st, r.value)
  }
}
