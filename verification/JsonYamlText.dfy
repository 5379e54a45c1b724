/** FastWriter's options: what the YAML form adds and what the final line feed is for. */
module JsonYamlText {
  import opened JsonValue
  import opened JsonNumber
  import opened JsonString
  import opened JsonFastWriter
  import opened JsonLayout
  import opened JsonStyledText

  // ----- the tokens ----------------------------------------------------------------------------

  lemma ColonLaid(o: Options)
    ensures Laid([":"], Colon(o)) && NoBreak(Colon(o))
  {
    hide Laid;
    MarksLaid();
    LaidPair([":"], ":", [], " ", [":"], ": ");
  }

  /** With either colon, the text is a layout of the value's tokens and has no line feed. */
  lemma {:induction false} FastLaid(o: Options, v: Value)
    requires PlainReals(o.realText) && !o.dropNullPlaceholders
    ensures Laid(ValueTokens(o.realText, v), FastText(o, v)) && NoBreak(FastText(o, v))
    decreases Weight(v), 0, 0
  {
    hide Laid, ItemTokens, MemberTokens, ItemsText, MembersText, Quoted, IntText;
    match v {
      case Array(e) =>
        ItemsLaid(o, e, 0, ArraySize(e));
        MarksLaid();
        LaidThree(["["], "[", ItemTokens(o.realText, e, 0, ArraySize(e)), ItemsText(o, e, 0, ArraySize(e)), ["]"], "]");
      case Object(e) =>
        MembersLaid(o, e, true);
        MarksLaid();
        LaidThree(["{"], "{", MemberTokens(o.realText, e, true), MembersText(o, e, true), ["}"], "}");
      case _ => ScalarLaid(o, v);
    }
  }

  lemma ScalarLaid(o: Options, v: Value)
    requires PlainReals(o.realText) && !o.dropNullPlaceholders && !v.Array? && !v.Object?
    ensures Laid(ValueTokens(o.realText, v), FastText(o, v)) && NoBreak(FastText(o, v))
  {
    hide Laid, Quoted, IntText;
    assert FastText(o, v) == FlatText(o.realText, v);
    assert Printed(v) == v;
    FlatLaid(o.realText, v);
  }

  lemma {:induction false} ItemsLaid(o: Options, e: Entries, i: nat, n: nat)
    requires PlainReals(o.realText) && !o.dropNullPlaceholders
    ensures Laid(ItemTokens(o.realText, e, i, n), ItemsText(o, e, i, n)) && NoBreak(ItemsText(o, e, i, n))
    decreases EntriesWeight(e), 1, n - i
  {
    hide Laid, PlainReals, At, ValueTokens, FastText;
    MarksLaid();
    if i < n {
      FastLaid(o, At(e, i));
      ItemsLaid(o, e, i + 1, n);
      LaidThree(Comma(i == 0), Separator(i == 0), ValueTokens(o.realText, At(e, i)), FastText(o, At(e, i)),
                ItemTokens(o.realText, e, i + 1, n), ItemsText(o, e, i + 1, n));
    }
  }

  lemma {:induction false} MembersLaid(o: Options, e: Entries, first: bool)
    requires PlainReals(o.realText) && !o.dropNullPlaceholders
    ensures Laid(MemberTokens(o.realText, e, first), MembersText(o, e, first)) && NoBreak(MembersText(o, e, first))
    decreases EntriesWeight(e), 1, 0
  {
    hide Laid, PlainReals, ValueTokens, FastText, Quoted, MemberText;
    MarksLaid();
    if e.Entry? {
      FastLaid(o, e.value);
      MembersLaid(o, e.rest, false);
      MemberLaid(o, KeyText(e.key), ValueTokens(o.realText, e.value), FastText(o, e.value), first);
      LaidConcat(Comma(first) + ([Quoted(KeyText(e.key)), ":"] + ValueTokens(o.realText, e.value)), MemberText(o, KeyText(e.key), FastText(o, e.value), first),
                 MemberTokens(o.realText, e.rest, false), MembersText(o, e.rest, false));
    }
  }

  lemma MemberLaid(o: Options, name: string, toks: seq<string>, text: string, first: bool)
    requires Laid(toks, text) && NoBreak(text)
    ensures Laid(Comma(first) + ([Quoted(name), ":"] + toks), MemberText(o, name, text, first)) && NoBreak(MemberText(o, name, text, first))
  {
    hide Laid, Quoted, Colon;
    MarksLaid();
    QuotedLaid(name);
    QuotedHasNoBreak(name);
    ColonLaid(o);
    LaidThree(Comma(first), Separator(first), [Quoted(name)], Quoted(name), [":"], Colon(o));
    LaidConcat(Comma(first) + [Quoted(name)] + [":"], Separator(first) + Quoted(name) + Colon(o), toks, text);
    assert Comma(first) + [Quoted(name)] + [":"] + toks == Comma(first) + ([Quoted(name), ":"] + toks);
  }

  // ----- what the options change ------------------------------------------------------------------

  function Yaml(o: Options): Options { o.(yamlCompatibility := true) }

  function Compact(o: Options): Options { o.(yamlCompatibility := false) }

  /** The number of members anywhere in the printed tree. */
  function NamesIn(v: Value): nat
    decreases Weight(v), 0, 0
  {
    match v
    case Array(e) => NamesInItems(e, 0, ArraySize(e))
    case Object(e) => NamesInMembers(e)
    case _ => 0
  }

  function NamesInItems(e: Entries, i: nat, n: nat): nat
    decreases EntriesWeight(e), 1, n - i
  {
    if i >= n then 0 else NamesIn(At(e, i)) + NamesInItems(e, i + 1, n)
  }

  function NamesInMembers(e: Entries): nat
    decreases EntriesWeight(e), 1, 0
  {
    if e.Nil? then 0 else 1 + NamesIn(e.value) + NamesInMembers(e.rest)
  }

  lemma {:induction false} YamlLength(o: Options, v: Value)
    ensures |FastText(Yaml(o), v)| == |FastText(Compact(o), v)| + NamesIn(v)
    decreases Weight(v), 0, 0
  {
    hide ItemsText, MembersText, NamesInItems, NamesInMembers, Quoted, IntText;
    match v {
      case Array(e) => YamlItemsLength(o, e, 0, ArraySize(e));
      case Object(e) => YamlMembersLength(o, e, true);
      case _ =>
    }
  }

  lemma {:induction false} YamlItemsLength(o: Options, e: Entries, i: nat, n: nat)
    ensures |ItemsText(Yaml(o), e, i, n)| == |ItemsText(Compact(o), e, i, n)| + NamesInItems(e, i, n)
    decreases EntriesWeight(e), 1, n - i
  {
    hide At, FastText, NamesIn;
    if i < n {
      YamlLength(o, At(e, i));
      YamlItemsLength(o, e, i + 1, n);
    }
  }

  lemma {:induction false} YamlMembersLength(o: Options, e: Entries, first: bool)
    ensures |MembersText(Yaml(o), e, first)| == |MembersText(Compact(o), e, first)| + NamesInMembers(e)
    decreases EntriesWeight(e), 1, 0
  {
    hide FastText, NamesIn, Quoted;
    if e.Entry? {
      YamlLength(o, e.value);
      YamlMembersLength(o, e.rest, false);
    }
  }

  /** YAML compatibility adds one white space per member, outside string literals, and nothing else. */
  lemma YamlAddsSpaces(o: Options, v: Value)
    requires PlainReals(o.realText) && !o.dropNullPlaceholders
    ensures Strip(Outside, FastText(Yaml(o), v)) == FastText(Compact(o), v)
    ensures |FastText(Yaml(o), v)| == |FastText(Compact(o), v)| + NamesIn(v)
  {
    hide Laid, Strip, FastText, ValueTokens, NamesIn;
    FastLaid(Yaml(o), v);
    LayoutShowsFastText(Compact(o), v, FastText(Yaml(o), v));
    YamlLength(o, v);
  }

  /** The document is a single line; it is ended by a line feed unless that is switched off. */
  lemma OneLineOfText(o: Options, v: Value)
    requires PlainReals(o.realText) && !o.dropNullPlaceholders
    ensures var text := Written(o, v);
      if o.omitEndingLineFeed then NoBreak(text) else text != "" && text[|text| - 1] == '\n' && NoBreak(text[..|text| - 1])
  {
    hide FastText, Laid;
    FastLaid(o, v);
    if !o.omitEndingLineFeed { assert Written(o, v)[..|Written(o, v)| - 1] == FastText(o, v); }
  }

  /** The two forms of one member. */
  lemma ExampleMember(o: Options)
    ensures var v := Object(Entry(Name("a"), Array(Nil), Nil));
      FastText(Yaml(o), v) == "{\"a\": []}" && FastText(Compact(o), v) == "{\"a\":[]}"
  {
    hide Quoted;
    assert Quoted("a") == "\"a\"" by {
      SmallNames();
      NamePrintedWhole("a");
    }
    ExampleOf(Yaml(o));
    ExampleOf(Compact(o));
  }

  lemma ExampleOf(o: Options)
    ensures FastText(o, Object(Entry(Name("a"), Array(Nil), Nil))) == "{" + ("" + Quoted("a") + Colon(o) + "[]" + "") + "}"
  {
    hide Quoted, Colon;
    assert FastText(o, Array(Nil)) == "[]";
    assert MembersText(o, Nil, false) == "";
  }
}
