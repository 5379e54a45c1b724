/** The documents that the readers accept, as a grammar over token texts.

    A `Tree` is the concrete syntax of a value: it lists every token the readers consume for it,
    comments included.  `Yield` is its token list, `Legal` says which trees the grammar allows,
    `Meaning` the value a tree denotes.  Nothing here looks at a cursor.  The liberties the readers
    take beyond section 2 of RFC 8259 are cases of their own:

    - comments before a value if the features allow them, and before a name, behind a member and
      behind an element always;
    - any token at all as the separator behind a member's comments;
    - nothing at all for null, if the features allow it;
    - a closing brace behind the comma that follows a member with an empty name;
    - numbers as names, if the features allow them. */
module JsonGrammar {
  import opened JsonValue
  import opened JsonNumber
  import opened JsonString
  import opened JsonScanner
  import opened JsonParser
  import opened JsonEscapes
  import opened JsonLexemes

  datatype Tree =
    | Leaf(before: seq<string>, token: string)
    | Nothing(before: seq<string>)
    | Brackets(before: seq<string>, items: Items)
    | Braces(before: seq<string>, members: Members)

  datatype Items =
    | NoItems
    | LastItem(item: Tree, after: seq<string>)
    | NextItem(item: Tree, after: seq<string>, rest: Items)

  datatype Members =
    | NoMembers(before: seq<string>)
    | LastMember(before: seq<string>, name: string, value: Tree, after: seq<string>)
    | NextMember(before: seq<string>, name: string, value: Tree, after: seq<string>, separator: string, rest: Members)

  // ----- the tokens of a tree --------------------------------------------------------------

  function Yield(t: Tree): seq<string> {
    match t
    case Leaf(before, token) => before + [token]
    case Nothing(before) => before
    case Brackets(before, items) => before + ["["] + ItemsYield(items)
    case Braces(before, members) => before + ["{"] + MembersYield(members)
  }

  function ItemsYield(items: Items): seq<string> {
    match items
    case NoItems => ["]"]
    case LastItem(item, after) => Yield(item) + after + ["]"]
    case NextItem(item, after, rest) => Yield(item) + after + [","] + ItemsYield(rest)
  }

  function MembersYield(members: Members): seq<string> {
    match members
    case NoMembers(before) => before + ["}"]
    case LastMember(before, name, value, after) => before + [name, ":"] + Yield(value) + after + ["}"]
    case NextMember(before, name, value, after, separator, rest) =>
      before + [name, ":"] + Yield(value) + after + [separator] + MembersYield(rest)
  }

  // ----- what the tokens mean ----------------------------------------------------------------

  ghost predicate Comments(f: Features, ts: seq<string>) { forall i :: 0 <= i < |ts| ==> IsCommentText(f, ts[i]) }

  /** Comments in front of a value. */
  ghost predicate Leading(f: Features, ts: seq<string>) { Comments(f, ts) && (ts != [] ==> f.allowComments) }

  function NumberValue(f: Features, t: string): Option<Value> {
    if IntegerOf(t).Some? then IntegerOf(t)
    else if f.scanDouble(t).Some? then Some(Real(f.scanDouble(t).value))
    else None
  }

  function StringValue(t: string): Option<string> {
    if |t| < 2 then None else Unescape(t[1..|t| - 1])
  }

  /** The value of a token that is a value by itself. */
  ghost function ScalarValue(f: Features, t: string): Option<Value> {
    if t == "null" then Some(Null)
    else if t == "true" then Some(Bool(true))
    else if t == "false" then Some(Bool(false))
    else if t == "NaN" && f.ours && f.allowSpecialFloats then Some(Real(NAN_BITS))
    else if t == "Infinity" && f.ours && f.allowSpecialFloats then Some(Real(POS_INF_BITS))
    else if t == "-Infinity" && f.ours && f.allowSpecialFloats then Some(Real(NEG_INF_BITS))
    else if IsStringText(f, t) then
      if StringValue(t).Some? && |StringValue(t).value| <= MAX_STRING then Some(String(StringValue(t).value)) else None
    else if IsNumberText(t) then NumberValue(f, t)
    else None
  }

  /** The bit patterns stored for the special floats are those of the IEEE 754 double format. */
  lemma SpecialBits()
    ensures var mantissa, sign := 0x10_0000_0000_0000, 0x8000_0000_0000_0000;
      && POS_INF_BITS / mantissa == 0x7FF && POS_INF_BITS % mantissa == 0
      && NEG_INF_BITS == sign + POS_INF_BITS
      && NAN_BITS / mantissa == 0x7FF && NAN_BITS % mantissa == mantissa / 2
  {
  }

  /** The name a token stands for in front of a colon. */
  ghost function NameValue(f: Features, t: string): Option<string> {
    var name :=
      if IsStringText(f, t) then StringValue(t)
      else if IsNumberText(t) && f.allowNumericKeys && f.ours && NumberValue(f, t).Some? then Some(NumberName(f, NumberValue(f, t).value))
      else None;
    if name.Some? && f.ours && |name.value| >= NAME_LIMIT then None else name
  }

  /** A numeric name in plain form is stored as it stands in the text. */
  lemma NumericName(f: Features, t: string)
    requires f.ours && f.allowNumericKeys && |t| < NAME_LIMIT
    requires IsPlainInteger(t) && IntegerOf(t).Some? && t != "-0"
    ensures NameValue(f, t) == Some(t)
  {
    hide DigitsValue, Digits;
    AcceptedText(t);
    PlainIsNumber(f, t);
  }

  lemma PlainIsNumber(f: Features, t: string)
    requires IsPlainInteger(t)
    ensures IsNumberText(t) && !IsStringText(f, t)
  {
    var rest := t[1..];
    forall i | 0 <= i < |rest| ensures rest[i] in DIGITS { DigitListed(rest[i]); }
    DigitListed(t[0]);
    assert rest + "" + "" == rest;
    assert NumberParts(rest, rest, "", "");
  }

  ghost function Meaning(f: Features, t: Tree): Value {
    match t
    case Leaf(_, token) => if ScalarValue(f, token).Some? then ScalarValue(f, token).value else Null
    case Nothing(_) => Null
    case Brackets(_, items) => Array(ItemsMeaning(f, items, 0))
    case Braces(_, members) => Object(MembersMeaning(f, members, Nil))
  }

  /** The elements under consecutive indices. */
  ghost function ItemsMeaning(f: Features, items: Items, i: nat): Entries {
    match items
    case NoItems => Nil
    case LastItem(item, _) => Entry(Index(i), Meaning(f, item), Nil)
    case NextItem(item, _, rest) => Entry(Index(i), Meaning(f, item), ItemsMeaning(f, rest, i + 1))
  }

  ghost function NameKey(f: Features, t: string): Key {
    StoredName(if NameValue(f, t).Some? then NameValue(f, t).value else "")
  }

  /** The members stored one after the other: a repeated name keeps its last value. */
  ghost function MembersMeaning(f: Features, members: Members, e: Entries): Entries {
    match members
    case NoMembers(_) => e
    case LastMember(_, name, value, _) => Put(e, NameKey(f, name), Meaning(f, value))
    case NextMember(_, name, value, _, _, rest) =>
      MembersMeaning(f, rest, Put(e, NameKey(f, name), Meaning(f, value)))
  }

  // ----- which trees are legal ---------------------------------------------------------------

  ghost predicate Legal(f: Features, t: Tree) {
    match t
    case Leaf(before, token) => Leading(f, before) && ScalarValue(f, token).Some?
    case Nothing(before) => Leading(f, before) && f.allowDroppedNullPlaceholders
    case Brackets(before, items) => Leading(f, before) && ItemsLegal(f, items, 0) && !(items.LastItem? && items.item == Nothing([]))
    case Braces(before, members) => Leading(f, before) && MembersLegal(f, members, Nil, "")
  }

  /** A dropped null leaves no room for comments behind it: they count as standing before it. */
  ghost predicate Behind(f: Features, t: Tree, after: seq<string>) {
    Comments(f, after) && (t.Nothing? ==> after == [])
  }

  ghost predicate ItemsLegal(f: Features, items: Items, i: nat) {
    match items
    case NoItems => i == 0
    case LastItem(item, after) => i <= MAX_INT && Legal(f, item) && Behind(f, item, after)
    case NextItem(item, after, rest) =>
      i <= MAX_INT && Legal(f, item) && Behind(f, item, after) && !rest.NoItems? && ItemsLegal(f, rest, i + 1)
  }

  /** What a member needs besides a legal value. */
  ghost predicate MemberLegal(f: Features, e: Entries, before: seq<string>, name: string, value: Tree, after: seq<string>) {
    && Comments(f, before) && NameValue(f, name).Some? && Behind(f, value, after)
    && (f.ours && f.rejectDupKeys ==> Find(e, NameKey(f, name)).None?)
  }

  /** Behind a member without comments a comma separates; behind comments any other token does. */
  ghost predicate Separates(f: Features, after: seq<string>, separator: string) {
    if after == [] then separator == "," else separator != "" && separator != "}" && !IsCommentText(f, separator)
  }

  /** `e` holds the members so far, `last` is the name of the latest. */
  ghost predicate MembersLegal(f: Features, members: Members, e: Entries, last: string) {
    match members
    case NoMembers(before) => Comments(f, before) && last == ""
    case LastMember(before, name, value, after) => Legal(f, value) && MemberLegal(f, e, before, name, value, after)
    case NextMember(before, name, value, after, separator, rest) =>
      && Legal(f, value) && MemberLegal(f, e, before, name, value, after) && Separates(f, after, separator)
      && MembersLegal(f, rest, Put(e, NameKey(f, name), Meaning(f, value)), NameValue(f, name).value)
  }

  function Depth(t: Tree): nat {
    match t
    case Brackets(_, items) => 1 + ItemsDepth(items)
    case Braces(_, members) => 1 + MembersDepth(members)
    case _ => 1
  }

  function ItemsDepth(items: Items): nat {
    match items
    case NoItems => 0
    case LastItem(item, _) => Depth(item)
    case NextItem(item, _, rest) => Max(Depth(item), ItemsDepth(rest))
  }

  function MembersDepth(members: Members): nat {
    match members
    case NoMembers(_) => 0
    case LastMember(_, _, value, _) => Depth(value)
    case NextMember(_, _, value, _, _, rest) => Max(Depth(value), MembersDepth(rest))
  }

  // ----- repeated names ----------------------------------------------------------------------

  /** The value behind the last occurrence of a key, if it occurs. */
  ghost function LastValue(f: Features, members: Members, k: Key): Option<Value> {
    match members
    case NoMembers(_) => None
    case LastMember(_, name, value, _) => if NameKey(f, name) == k then Some(Meaning(f, value)) else None
    case NextMember(_, name, value, _, _, rest) =>
      var later := LastValue(f, rest, k);
      if later.Some? then later
      else if NameKey(f, name) == k then Some(Meaning(f, value))
      else None
  }

  /** An object holds each of its names with the value that stands last in the text. */
  lemma {:induction false} LastWins(f: Features, members: Members, e: Entries, k: Key)
    requires Sorted(e)
    ensures Sorted(MembersMeaning(f, members, e))
    ensures Find(MembersMeaning(f, members, e), k)
      == if LastValue(f, members, k).Some? then LastValue(f, members, k) else Find(e, k)
  {
    hide Sorted, Put, Meaning, NameKey;
    match members {
      case NoMembers(_) =>
      case LastMember(_, name, value, _) => PutMeaning(e, NameKey(f, name), Meaning(f, value), k);
      case NextMember(_, name, value, _, _, rest) =>
        PutMeaning(e, NameKey(f, name), Meaning(f, value), k);
        LastWins(f, rest, Put(e, NameKey(f, name), Meaning(f, value)), k);
    }
  }

  // ----- reading tokens ----------------------------------------------------------------------

  /** From `p` on the readers find these token texts and are then at `q`, white space apart. */
  ghost predicate Reads(f: Features, doc: string, p: nat, ts: seq<string>, q: nat)
    requires p <= |doc|
    decreases |ts|
  {
    if ts == [] then p <= q <= |doc| && SkipSpaces(doc, p) == SkipSpaces(doc, q)
    else
      var t := ReadToken(f, doc, p);
      t.start < t.end && TokenText(doc, t) == ts[0] && Reads(f, doc, t.end, ts[1..], q)
  }

  lemma SameSpaces(f: Features, doc: string, p: nat, q: nat)
    requires p <= |doc| && q <= |doc| && SkipSpaces(doc, p) == SkipSpaces(doc, q)
    ensures ReadToken(f, doc, p) == ReadToken(f, doc, q) && NextToken(f, doc, p) == NextToken(f, doc, q)
  {
  }

  lemma {:induction false} ReadsBounds(f: Features, doc: string, p: nat, ts: seq<string>, q: nat)
    requires p <= |doc| && Reads(f, doc, p, ts, q)
    ensures p <= q <= |doc|
    ensures forall i :: 0 <= i < |ts| ==> ts[i] != ""
    decreases |ts|
  {
    if ts != [] {
      var t := ReadToken(f, doc, p);
      assert |TokenText(doc, t)| == t.end - t.start;
      ReadsBounds(f, doc, t.end, ts[1..], q);
    }
  }

  lemma {:induction false} ReadsAppend(f: Features, doc: string, p: nat, a: seq<string>, q: nat, b: seq<string>, r: nat)
    requires p <= |doc| && q <= |doc| && Reads(f, doc, p, a, q) && Reads(f, doc, q, b, r)
    ensures Reads(f, doc, p, a + b, r)
    decreases |a|
  {
    hide ReadToken, SkipSpaces;
    if a == [] {
      assert a + b == b;
      SameSpaces(f, doc, p, q);
    } else {
      assert (a + b)[0] == a[0] && (a + b)[1..] == a[1..] + b;
      ReadsAppend(f, doc, ReadToken(f, doc, p).end, a[1..], q, b, r);
    }
  }

  lemma {:induction false} ReadsSplit(f: Features, doc: string, p: nat, a: seq<string>, b: seq<string>, r: nat) returns (q: nat)
    requires p <= |doc| && Reads(f, doc, p, a + b, r)
    ensures p <= q <= |doc| && Reads(f, doc, p, a, q) && Reads(f, doc, q, b, r)
    decreases |a|
  {
    hide ReadToken, SkipSpaces;
    if a == [] {
      q := p;
      assert a + b == b;
    } else {
      assert (a + b)[0] == a[0] && (a + b)[1..] == a[1..] + b;
      q := ReadsSplit(f, doc, ReadToken(f, doc, p).end, a[1..], b, r);
      ReadsBounds(f, doc, ReadToken(f, doc, p).end, a[1..], q);
    }
  }

  /** Reading one token. */
  lemma ReadsOne(f: Features, doc: string, p: nat)
    requires p <= |doc| && ReadToken(f, doc, p).start < ReadToken(f, doc, p).end
    ensures var t := ReadToken(f, doc, p); Reads(f, doc, p, [TokenText(doc, t)], t.end)
  {
    hide ReadToken;
    var t := ReadToken(f, doc, p);
    assert [TokenText(doc, t)][1..] == [];
    assert Reads(f, doc, t.end, [], t.end);
  }

  /** The first of some tokens. */
  lemma ReadsFirst(f: Features, doc: string, p: nat, x: string, q: nat)
    requires p <= |doc| && Reads(f, doc, p, [x], q)
    ensures var t := ReadToken(f, doc, p);
      t.start < t.end && TokenText(doc, t) == x && t.end <= q <= |doc| && SkipSpaces(doc, t.end) == SkipSpaces(doc, q)
      && t.kind == KindOf(f, x)
  {
    hide ReadToken, SkipSpaces, KindOf;
    TokenMeaning(f, doc, p);
    assert [x][1..] == [];
  }
}
