/** Json::FastWriter: the text of a value, and the class that appends it to `document_`. */
module JsonFastWriter {
  import opened JsonValue
  import opened JsonNumber
  import opened JsonString

  /** `realText` is valueToString(double). */
  datatype Options = Options(
    yamlCompatibility: bool,
    dropNullPlaceholders: bool,
    omitEndingLineFeed: bool,
    realText: nat -> string)

  function BoolText(b: bool): string { if b then "true" else "false" }

  function Colon(o: Options): string { if o.yamlCompatibility then ": " else ":" }

  function FastText(o: Options, v: Value): string
    decreases Weight(v), 0, 0
  {
    match v
    case Null => if o.dropNullPlaceholders then "" else "null"
    case Int(i) => IntText(i)
    case UInt(u) => IntText(u)
    case Real(x) => o.realText(x)
    case NullString => ""
    case String(s) => Quoted(s)
    case Bool(b) => BoolText(b)
    case Array(e) => "[" + ItemsText(o, e, 0, ArraySize(e)) + "]"
    case Object(e) => "{" + MembersText(o, e, true) + "}"
  }

  function Separator(first: bool): string { if first then "" else "," }

  /** Elements i up to n of an array, gaps as null; each but element 0 behind a comma. */
  function ItemsText(o: Options, e: Entries, i: nat, n: nat): string
    decreases EntriesWeight(e), 1, n - i
  {
    if i >= n then "" else Separator(i == 0) + FastText(o, At(e, i)) + ItemsText(o, e, i + 1, n)
  }

  function KeyText(k: Key): string { if k.Name? then k.name else "" }

  function MembersText(o: Options, e: Entries, first: bool): string
    decreases EntriesWeight(e), 1, 0
  {
    if e.Nil? then ""
    else MemberText(o, KeyText(e.key), FastText(o, e.value), first) + MembersText(o, e.rest, false)
  }

  function MemberText(o: Options, name: string, value: string, first: bool): string {
    Separator(first) + Quoted(name) + Colon(o) + value
  }

  /** The text of a non-empty member list without a leading comma. */
  function MemberAndRest(o: Options, e: Entries): string
    requires e.Entry?
  {
    Quoted(KeyText(e.key)) + Colon(o) + FastText(o, e.value) + MembersText(o, e.rest, false)
  }

  lemma MembersFront(o: Options, e: Entries)
    requires e.Entry?
    ensures MembersText(o, e, true) == MemberAndRest(o, e)
    ensures MembersText(o, e, false) == "," + MemberAndRest(o, e)
  {
    hide Quoted, FastText;
    FrontSeparator("", Quoted(KeyText(e.key)), Colon(o), FastText(o, e.value), MembersText(o, e.rest, false));
    FrontSeparator(",", Quoted(KeyText(e.key)), Colon(o), FastText(o, e.value), MembersText(o, e.rest, false));
  }

  lemma FrontSeparator(separator: string, a: string, b: string, c: string, d: string)
    ensures separator + a + b + c + d == separator + (a + b + c + d)
    ensures separator == "" ==> separator + a + b + c + d == a + b + c + d
  {
  }

  /** What write() returns. */
  function Written(o: Options, v: Value): string {
    FastText(o, v) + if o.omitEndingLineFeed then "" else "\n"
  }

  /** Value::getMemberNames: the names in map order. */
  function MemberNames(e: Entries): (names: seq<string>)
    ensures |names| == Count(e)
  {
    match e case Nil => [] case Entry(k, _, rest) => [KeyText(k)] + MemberNames(rest)
  }

  function Drop(e: Entries, i: nat): (r: Entries)
    requires i <= Count(e)
    ensures Count(r) == Count(e) - i && EntriesWeight(r) <= EntriesWeight(e)
  {
    if i == 0 then e else Drop(e.rest, i - 1)
  }

  /** The i-th member name looks up the i-th entry's value. */
  lemma {:induction false} NameFindsEntry(e: Entries, i: nat)
    requires Sorted(e) && NameKeys(e) && i < Count(e)
    ensures var m := Drop(e, i);
      && m.Entry? && m.key == Name(MemberNames(e)[i])
      && Drop(e, i + 1) == m.rest
      && Find(e, m.key) == Some(m.value)
  {
    if i > 0 {
      NameFindsEntry(e.rest, i - 1);
      KeyAbove(e.key, e.rest, i - 1);
    }
  }

  lemma {:induction false} KeyAbove(k: Key, e: Entries, i: nat)
    requires AllAbove(k, e) && i < Count(e)
    ensures Drop(e, i).Entry? && k != Drop(e, i).key
  {
    if i > 0 { KeyAbove(k, e.rest, i - 1); } else { KeyTrichotomy(k, e.key); }
  }

  lemma {:induction false} DropWellFormed(e: Entries, i: nat)
    requires EntriesWellFormed(e) && i < Count(e)
    ensures Drop(e, i).Entry? && WellFormed(Drop(e, i).value)
    ensures Weight(Drop(e, i).value) < EntriesWeight(e)
  {
    if i > 0 { DropWellFormed(e.rest, i - 1); }
  }

  class FastWriter {
    const options: Options
    var document: string

    constructor (options: Options)
      ensures this.options == options && document == ""
    {
      this.options := options;
      document := "";
    }

    method Write(root: Value) returns (text: string)
      requires WellFormed(root)
      modifies this
      ensures text == document == Written(options, root)
    {
      document := "";
      WriteValue(root);
      assert document == FastText(options, root);
      if !options.omitEndingLineFeed { document := document + "\n"; }
      text := document;
    }

    method WriteValue(value: Value)
      requires WellFormed(value)
      modifies this
      ensures document == old(document) + FastText(options, value)
      decreases Weight(value), 0
    {
      match value
      case Null =>
        if !options.dropNullPlaceholders { document := document + "null"; }
      case Int(i) =>
        var text := IntToText(i);
        document := document + text;
      case UInt(u) =>
        var text := UIntToText(u);
        document := document + text;
      case Real(x) => document := document + options.realText(x);
      case NullString =>
      case String(s) =>
        var text := QuoteN(s + [NUL], |s|);
        assert (s + [NUL])[..|s|] == s;
        document := document + text;
      case Bool(b) => document := document + BoolText(b);
      case Array(e) =>
        document := document + "[";
        WriteItems(e);
        document := document + "]";
      case Object(e) =>
        document := document + "{";
        WriteMembers(e);
        document := document + "}";
    }

    method WriteItems(e: Entries)
      requires EntriesWellFormed(e)
      modifies this
      ensures document == old(document) + ItemsText(options, e, 0, ArraySize(e))
      decreases EntriesWeight(e), 2
    {
      var size := ArraySize(e);
      var index := 0;
      while index < size
        invariant 0 <= index <= size
        invariant document + ItemsText(options, e, index, size) == old(document) + ItemsText(options, e, 0, size)
      {
        Regroup(document, Separator(index == 0) + FastText(options, At(e, index)), ItemsText(options, e, index + 1, size));
        WriteItem(e, index);
        index := index + 1;
      }
    }

    /** One round of the array loop. */
    method WriteItem(e: Entries, index: nat)
      requires EntriesWellFormed(e)
      modifies this
      ensures document == old(document) + (Separator(index == 0) + FastText(options, At(e, index)))
      decreases EntriesWeight(e), 1
    {
      if index > 0 { document := document + ","; }
      FoundIsWellFormed(e, Index(index));
      WriteValue(At(e, index));
    }

    method WriteMembers(e: Entries)
      requires EntriesWellFormed(e) && Sorted(e) && NameKeys(e)
      modifies this
      ensures document == old(document) + MembersText(options, e, true)
      decreases EntriesWeight(e), 2
    {
      var members := MemberNames(e);
      var it := 0;
      while it < |members|
        invariant 0 <= it <= |members|
        invariant document + MembersText(options, Drop(e, it), it == 0) == old(document) + MembersText(options, e, true)
      {
        ghost var m := Drop(e, it);
        NameFindsEntry(e, it);
        Regroup(document, MemberText(options, KeyText(m.key), FastText(options, m.value), it == 0),
                MembersText(options, m.rest, false));
        WriteMember(e, members[it], it == 0, it);
        it := it + 1;
      }
    }

    /** One round of the object loop: the value is looked up by name. */
    method WriteMember(e: Entries, name: string, first: bool, ghost i: nat)
      requires EntriesWellFormed(e) && Sorted(e) && NameKeys(e)
      requires i < Count(e) && name == MemberNames(e)[i]
      modifies this
      ensures Drop(e, i).Entry?
      ensures document == old(document) + MemberText(options, KeyText(Drop(e, i).key), FastText(options, Drop(e, i).value), first)
      decreases EntriesWeight(e), 1
    {
      NameFindsEntry(e, i);
      DropWellFormed(e, i);
      WriteName(name, first);
      var value := Find(e, Name(name)).value;
      WriteValue(value);
    }

    method WriteName(name: string, first: bool)
      modifies this
      ensures document == old(document) + (Separator(first) + Quoted(name) + Colon(options))
    {
      if !first { document := document + ","; }
      var quoted := QuoteN(name + [NUL], |name|);
      assert (name + [NUL])[..|name|] == name;
      document := document + quoted;
      document := document + Colon(options);
      Regroup3(old(document), Separator(first), quoted, Colon(options));
    }
  }

  lemma Regroup3(a: string, b: string, c: string, d: string)
    ensures a + (b + c + d) == a + b + c + d
  {
  }

  lemma Regroup(a: string, b: string, c: string)
    ensures a + (b + c) == (a + b) + c
  {
  }
}
