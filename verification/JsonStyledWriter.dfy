/** Json::StyledWriter on trees without comments: the class writes exactly `StyledText`.

    An array's element texts are first written into a cache, to measure them; the cache is then
    printed on one line, or line by line, or not at all.  The document only ever grows by the text of
    the value at hand, shifted to the current indentation. */
module JsonStyledWriter {
  import opened JsonValue
  import opened JsonNumber
  import opened JsonString
  import opened JsonFastWriter
  import opened JsonLayout
  import opened JsonStyledText

  /** Value::size as isMultineArray uses it. */
  function ChildCount(v: Value): nat {
    match v
    case Array(e) => ArraySize(e)
    case Object(e) => Count(e) % TWO_TO_THE_32
    case _ => 0
  }

  predicate AllSpaces(s: string) { forall i :: 0 <= i < |s| ==> s[i] == ' ' }

  predicate EndsIn(s: string, cs: set<char>) { s != "" && s[|s| - 1] in cs }

  /** A value may be written here: at the very beginning, or behind a space. */
  predicate AtStart(text: string, indent: string) { if text == "" then indent == "" else EndsIn(text, {' '}) }

  class StyledWriter {
    const rightMargin: nat := 74
    const indentSize: nat := 3
    const realText: nat -> string
    var document: string
    var childValues: seq<string>
    var indentString: string
    var addChildValues: bool

    constructor (realText: nat -> string)
      requires PlainReals(realText)
      ensures Valid() && this.realText == realText
    {
      this.realText := realText;
      document, childValues, indentString, addChildValues := "", [], "", false;
    }

    ghost predicate Valid()
      reads this
    {
      AllSpaces(indentString) && PlainReals(realText)
    }

    method PushValue(t: string)
      modifies this`document, this`childValues
      ensures addChildValues ==> document == old(document) && childValues == old(childValues) + [t]
      ensures !addChildValues ==> document == old(document) + t && childValues == old(childValues)
    {
      if addChildValues {
        childValues := childValues + [t];
      } else {
        document := document + t;
      }
    }

    /** A new line unless the last one is still empty or only indented. */
    method WriteIndent()
      modifies this`document
      ensures AtStart(old(document), indentString) ==> document == old(document)
      ensures old(document) != "" && !EndsIn(old(document), {' ', '\n'}) ==> document == old(document) + "\n" + indentString
    {
      if document != "" {
        var last := document[|document| - 1];
        if last == ' ' { return; }
        if last != '\n' { document := document + "\n"; }
      }
      document := document + indentString;
    }

    method WriteWithIndent(t: string)
      modifies this`document
      ensures AtStart(old(document), indentString) ==> document == old(document) + t
      ensures old(document) != "" && !EndsIn(old(document), {' ', '\n'}) ==> document == old(document) + "\n" + indentString + t
    {
      WriteIndent();
      document := document + t;
    }

    method Indent()
      requires Valid()
      modifies this`indentString
      ensures Valid() && indentString == old(indentString) + "   "
    {
      indentString := indentString + "   ";
    }

    method Unindent(ghost outer: string)
      requires Valid() && indentString == outer + "   "
      modifies this`indentString
      ensures Valid() && indentString == outer
    {
      assert |indentString| >= indentSize;
      indentString := indentString[..|indentString| - indentSize];
      assert indentString == outer;
    }

    /** write: the text of the root and a line feed.  Its tokens are the root's, and stripped of white
        space outside literals it is FastWriter's text. */
    method Write(root: Value) returns (text: string)
      requires Valid() && WellFormed(root) && Printable(root)
      modifies this
      ensures Valid() && indentString == ""
      ensures text == Document(realText, root)
      ensures Laid(ValueTokens(realText, Printed(root)), text)
      ensures Strip(Outside, text) == FastText(FastOptions(realText), Printed(root))
    {
      hide FastText, ValueTokens, StyledText, Laid, Strip, Printed;
      document, addChildValues, indentString := "", false, "";
      WriteValue(root);
      NoShift(StyledText(realText, root));
      document := document + "\n";
      DocumentLaid(realText, root);
      LayoutKeepsMeaning(realText, root);
      text := document;
    }

    /** Either one more text is cached, or the document shows the value's text. */
    method WriteValue(value: Value)
      requires Valid() && WellFormed(value) && Printable(value)
      requires if addChildValues then Flat(value) else AtStart(document, indentString)
      modifies this
      ensures Valid() && indentString == old(indentString) && addChildValues == old(addChildValues)
      ensures addChildValues ==> document == old(document) && childValues == old(childValues) + [FlatText(realText, value)]
      ensures !addChildValues ==> document == old(document) + Shift(indentString, StyledText(realText, value))
      decreases Weight(value), 1
    {
      hide Shift, PlainReals;
      if value.Array? {
        WriteArrayValue(value);
      } else if value.Object? {
        WriteObjectValue(value);
      } else {
        var text := ScalarText(value);
        ShiftFlat(indentString, realText, value);
        PushValue(text);
      }
    }

    /** The text of a scalar is FastWriter's; a null string pointer has none. */
    method ScalarText(value: Value) returns (text: string)
      requires WellFormed(value) && !value.Array? && !value.Object?
      ensures text == FlatText(realText, value)
    {
      match value {
        case Null => text := "null";
        case Int(i) => text := IntToText(i);
        case UInt(u) => text := UIntToText(u);
        case Real(x) => text := realText(x);
        case NullString => text := "";
        case String(s) =>
          text := QuoteN(s + [NUL], |s|);
          assert (s + [NUL])[..|s|] == s;
        case Bool(b) => text := BoolText(b);
      }
    }

    // ----- objects -----------------------------------------------------------------------

    /** Objects: one member per line, names printed from their C strings. */
    method WriteObjectValue(value: Value)
      requires Valid() && value.Object? && WellFormed(value) && Printable(value)
      requires if addChildValues then Flat(value) else AtStart(document, indentString)
      modifies this
      ensures Valid() && indentString == old(indentString) && addChildValues == old(addChildValues)
      ensures addChildValues ==> document == old(document) && childValues == old(childValues) + ["{}"]
      ensures !addChildValues ==> document == old(document) + Shift(indentString, StyledText(realText, value))
      decreases Weight(value), 0
    {
      hide MemberNames, Shift, PlainReals, Block, MemberLines;
      var e := value.entries;
      var members := MemberNames(e);
      NamesOfNone(e);
      if |members| == 0 {
        ShiftFlat(indentString, realText, value);
        PushValue("{}");
      } else {
        ghost var outer := indentString;
        WriteWithIndent("{");
        Indent();
        WriteMembers(e, members);
        Unindent(outer);
        MembersTextSome(realText, e);
        CloseBlock(old(document), outer, "{", MemberLines(realText, e, true), "}");
        WriteWithIndent("}");
      }
    }

    method WriteMembers(e: Entries, members: seq<string>)
      requires Valid() && !addChildValues && e.Entry? && members == MemberNames(e) && EndsIn(document, {'{'}) && indentString != ""
      requires EntriesWellFormed(e) && Sorted(e) && NameKeys(e) && EntriesPrintable(e)
      modifies this
      ensures Valid() && indentString == old(indentString) && !addChildValues
      ensures document == old(document) + Shift(indentString, MemberLines(realText, e, true))
      decreases EntriesWeight(e), 4
    {
      hide MemberNames, Shift, PlainReals, MemberLines, MemberLine;
      ghost var x := indentString;
      MembersLead(x, realText, e);
      var it := 0;
      while true
        invariant 0 <= it < |members|
        invariant Valid() && indentString == x && !addChildValues && EndsIn(document, {'{', ','})
        invariant Drop(e, it).Entry? && document + MembersOnward(x, realText, Drop(e, it)) == old(document) + Shift(x, MemberLines(realText, e, true))
        decreases |members| - it
      {
        ghost var m := Drop(e, it);
        ghost var before := document;
        NameFindsEntry(e, it);
        WriteMember(e, members[it], it);
        it := it + 1;
        MembersRest(before, x, realText, m);
        if it == |members| { break; }
        document := document + ",";
      }
    }

    method WriteMember(e: Entries, name: string, ghost i: nat)
      requires Valid() && !addChildValues && EndsIn(document, {'{', ','})
      requires EntriesWellFormed(e) && Sorted(e) && NameKeys(e) && EntriesPrintable(e)
      requires i < Count(e) && name == MemberNames(e)[i]
      modifies this
      ensures Valid() && indentString == old(indentString) && !addChildValues
      ensures Drop(e, i).Entry?
      ensures document == old(document) + (("\n" + indentString) + Shift(indentString, MemberLine(realText, Drop(e, i).key, Drop(e, i).value)))
      decreases EntriesWeight(e), 3
    {
      hide Quoted, MemberNames, Shift, PlainReals, StyledText;
      NameFindsEntry(e, i);
      DropWellFormed(e, i);
      DropIsPrintable(e, i);
      var quoted := QuoteCString(name + [NUL]);
      WriteWithIndent(quoted);
      document := document + " : ";
      var child := Find(e, Name(name)).value;
      WriteValue(child);
      ShiftMember(indentString, realText, Drop(e, i).key, child);
    }

    // ----- arrays ------------------------------------------------------------------------

    method WriteArrayValue(value: Value)
      requires Valid() && value.Array? && WellFormed(value) && Printable(value)
      requires if addChildValues then Flat(value) else AtStart(document, indentString)
      modifies this
      ensures Valid() && indentString == old(indentString) && addChildValues == old(addChildValues)
      ensures addChildValues ==> document == old(document) && childValues == old(childValues) + ["[]"]
      ensures !addChildValues ==> document == old(document) + Shift(indentString, StyledText(realText, value))
      decreases Weight(value), 0
    {
      hide ArraySize, Shift, PlainReals, Block, OneLine, InLine, ItemLines;
      var e := value.entries;
      var size := ArraySize(e);
      if size == 0 {
        ShiftFlat(indentString, realText, value);
        PushValue("[]");
      } else {
        var multiLine := IsMultilineArray(e);
        if multiLine {
          ghost var outer := indentString;
          WriteWithIndent("[");
          Indent();
          WriteItemLines(e, size);
          Unindent(outer);
          ItemsTextSome(realText, e, size);
          CloseBlock(old(document), outer, "[", ItemLines(realText, e, 0, size), "]");
          WriteWithIndent("]");
        } else {
          assert |childValues| == size;
          document := document + "[ ";
          WriteItemsInLine(e, size);
          document := document + " ]";
          ShiftLineText(indentString, realText, e);
        }
      }
    }

    /** The cached texts are those of the elements. */
    predicate CachedUpTo(e: Entries, n: nat)
      reads this
    {
      |childValues| == n && forall i: nat :: i < n ==> Flat(At(e, i)) && childValues[i] == FlatText(realText, At(e, i))
    }

    method WriteItemLines(e: Entries, size: nat)
      requires Valid() && !addChildValues && EntriesWellFormed(e) && EntriesPrintable(e) && EntriesSized(e) && 0 < size
      requires childValues == [] || CachedUpTo(e, size)
      requires EndsIn(document, {'['}) && indentString != ""
      modifies this
      ensures Valid() && indentString == old(indentString) && !addChildValues
      ensures document == old(document) + Shift(indentString, ItemLines(realText, e, 0, size))
      decreases EntriesWeight(e), 3
    {
      hide At, Shift, PlainReals, ItemLines, FlatText, StyledText, ItemsOnward, Flat;
      ghost var x := indentString;
      ItemsLead(x, realText, e, 0, size);
      var hasChildValue := childValues != [];
      var index := 0;
      while true
        invariant 0 <= index < size
        invariant Valid() && indentString == x && !addChildValues && EndsIn(document, {'[', ','})
        invariant hasChildValue ==> CachedUpTo(e, size)
        invariant document + ItemsOnward(x, realText, e, index, size) == old(document) + Shift(x, ItemLines(realText, e, 0, size))
        decreases size - index
      {
        ghost var before := document;
        WriteItem(e, index, size, hasChildValue);
        index := index + 1;
        ItemsRest(before, x, realText, e, index - 1, size);
        if index == size { break; }
        document := document + ",";
      }
    }

    method WriteItem(e: Entries, index: nat, size: nat, hasChildValue: bool)
      requires Valid() && !addChildValues && EntriesWellFormed(e) && EntriesPrintable(e) && EntriesSized(e) && index < size
      requires hasChildValue ==> CachedUpTo(e, size)
      requires EndsIn(document, {'[', ','}) && indentString != ""
      modifies this
      ensures Valid() && indentString == old(indentString) && !addChildValues
      ensures hasChildValue ==> CachedUpTo(e, size)
      ensures document == old(document) + (("\n" + indentString) + Shift(indentString, StyledText(realText, At(e, index))))
      decreases EntriesWeight(e), 2
    {
      hide At, Shift, PlainReals, FlatText, StyledText, Flat;
      if hasChildValue {
        ShiftFlat(indentString, realText, At(e, index));
        WriteWithIndent(childValues[index]);
      } else {
        WriteIndent();
        ItemFacts(e, index);
        WriteValue(At(e, index));
      }
    }

    method WriteItemsInLine(e: Entries, size: nat)
      requires 0 < size && CachedUpTo(e, size)
      modifies this`document
      ensures document == old(document) + InLine(realText, e, 0, size)
    {
      hide FlatText, At, InLine, Flat;
      InLineEnd(realText, e, size);
      var index := 0;
      while index < size
        invariant 0 <= index <= size && CachedUpTo(e, size)
        invariant document + InLine(realText, e, index, size) == old(document) + InLine(realText, e, 0, size)
      {
        InLineNext(document, realText, e, index, size);
        if index > 0 { document := document + ", "; }
        document := document + childValues[index];
        index := index + 1;
      }
    }

    /** isMultineArray: fills the cache with one text per element unless it can tell earlier that the
        array needs several lines. */
    method IsMultilineArray(e: Entries) returns (isMultiLine: bool)
      requires Valid() && !addChildValues && EntriesWellFormed(e) && EntriesPrintable(e) && EntriesSized(e) && 0 < ArraySize(e)
      modifies this
      ensures Valid() && indentString == old(indentString) && !addChildValues && document == old(document)
      ensures isMultiLine == !OneLine(realText, e)
      ensures CachedUpTo(e, ArraySize(e)) || (isMultiLine && childValues == [])
      decreases EntriesWeight(e), 3
    {
      hide At, ArraySize, PlainReals, LineText;
      var size := ArraySize(e);
      isMultiLine := size * 3 % TWO_TO_THE_32 >= rightMargin;
      childValues := [];
      var index := 0;
      while index < size && !isMultiLine
        invariant 0 <= index <= size
        invariant Valid() && indentString == old(indentString) && !addChildValues && document == old(document) && childValues == []
        invariant !isMultiLine ==> AllFlat(e, index) && size * 3 % TWO_TO_THE_32 < rightMargin
        invariant isMultiLine ==> !OneLine(realText, e)
      {
        var child := At(e, index);
        ItemFacts(e, index);
        isMultiLine := (child.Array? || child.Object?) && ChildCount(child) > 0;
        FlatChild(child);
        index := index + 1;
      }
      if !isMultiLine {
        var lineLength := CacheItems(e, size);
        isMultiLine := lineLength >= rightMargin;
      }
    }

    method CacheItems(e: Entries, size: nat) returns (lineLength: int)
      requires Valid() && !addChildValues && childValues == [] && size == ArraySize(e) && 0 < size
      requires EntriesWellFormed(e) && EntriesPrintable(e) && EntriesSized(e) && AllFlat(e, size)
      modifies this
      ensures Valid() && indentString == old(indentString) && !addChildValues && document == old(document)
      ensures CachedUpTo(e, size)
      ensures lineLength == |LineText(realText, e)| % TWO_TO_THE_32
      decreases EntriesWeight(e), 2
    {
      hide At, Flat, FlatText, ArraySize, PlainReals, InLine, TextLengths;
      NoLengths(realText, e);
      addChildValues := true;
      lineLength := (4 + (size - 1) * 2) % TWO_TO_THE_32;
      var index := 0;
      while index < size
        invariant 0 <= index <= size
        invariant Valid() && indentString == old(indentString) && addChildValues && document == old(document)
        invariant CachedUpTo(e, index)
        invariant lineLength == (4 + (size - 1) * 2 + TextLengths(realText, e, index)) % TWO_TO_THE_32
      {
        ItemFacts(e, index);
        WriteValue(At(e, index));
        MoreLength(4 + (size - 1) * 2, realText, e, index);
        lineLength := (lineLength + |childValues[index]|) % TWO_TO_THE_32;
        index := index + 1;
      }
      addChildValues := false;
      LineLength(realText, e, size);
    }
  }

  lemma FlatChild(v: Value)
    requires Sized(v)
    ensures Flat(v) <==> !((v.Array? || v.Object?) && ChildCount(v) > 0)
  {
  }

  lemma ItemFacts(e: Entries, i: nat)
    requires EntriesWellFormed(e) && EntriesPrintable(e) && EntriesSized(e)
    ensures WellFormed(At(e, i)) && Printable(At(e, i)) && Sized(At(e, i)) && Weight(At(e, i)) <= EntriesWeight(e)
  {
    FoundIsWellFormed(e, Index(i));
    if Find(e, Index(i)).Some? { FoundIsPrintable(e, Index(i)); }
  }

  lemma NamesOfNone(e: Entries)
    ensures |MemberNames(e)| == 0 <==> e.Nil?
  {
  }

  // ----- pieces of the text -----------------------------------------------------------------

  lemma ShiftFlat(x: string, realText: nat -> string, v: Value)
    requires PlainReals(realText) && Flat(v)
    ensures StyledText(realText, v) == FlatText(realText, v) && Shift(x, StyledText(realText, v)) == FlatText(realText, v)
  {
    hide FastText, PlainReals;
    FlatLaid(realText, v);
    ShiftNothing(x, FlatText(realText, v));
  }

  /** A closing bracket at the outer indentation makes a block of the lines in front of it. */
  lemma CloseBlock(before: string, outer: string, open: string, lines: string, close: string)
    requires lines != "" && open != "" && NoBreak(open) && NoBreak(close)
    ensures var doc := before + open + Shift(outer + "   ", lines);
      && doc != "" && !EndsIn(doc, {'\n'})
      && before + Shift(outer, Block(open, lines, close)) == doc + (if EndsIn(doc, {' '}) then "" else "\n" + outer) + close
  {
    hide Shift, NoBreak;
    var inner := Shift("   ", lines);
    var body := open + inner;
    ShiftedEnd(lines);
    ShiftEnd(outer, inner);
    assert NoBreak("   ") by { SpacesNoBreak(); }
    ShiftTwice(outer, "   ", lines);
    ShiftConcat(outer, body + Break(body), close);
    ShiftConcat(outer, body, Break(body));
    ShiftConcat(outer, open, inner);
    ShiftNothing(outer, open);
    ShiftNothing(outer, close);
    ShiftBreak(outer);
    ShiftNone(outer);
    var text := open + Shift(outer + "   ", lines);
    assert before + open + Shift(outer + "   ", lines) == before + text;
    BesideClose(before, text, if Break(body) == "" then "" else "\n" + outer, close);
  }

  lemma SpacesNoBreak()
    ensures NoBreak("   ")
  {
  }

  lemma BesideClose(before: string, text: string, b: string, close: string)
    ensures before + (text + b + close) == before + text + b + close
  {
  }

  /** The lines of a non-empty member list without a leading comma. */
  function MembersOnward(x: string, realText: nat -> string, e: Entries): string
    requires e.Entry?
  {
    (("\n" + x) + Shift(x, MemberLine(realText, e.key, e.value))) + Shift(x, MemberLines(realText, e.rest, false))
  }

  lemma MembersLead(x: string, realText: nat -> string, e: Entries)
    requires e.Entry?
    ensures Shift(x, MemberLines(realText, e, true)) == MembersOnward(x, realText, e)
    ensures Shift(x, MemberLines(realText, e, false)) == "," + MembersOnward(x, realText, e)
  {
    hide Shift, MemberLine;
    ShiftLead(x, true, MemberLine(realText, e.key, e.value), MemberLines(realText, e.rest, false));
    ShiftLead(x, false, MemberLine(realText, e.key, e.value), MemberLines(realText, e.rest, false));
  }

  lemma ShiftLead(x: string, first: bool, line: string, rest: string)
    ensures Shift(x, Separator(first) + ("\n" + line) + rest)
         == if first then (("\n" + x) + Shift(x, line)) + Shift(x, rest) else "," + ((("\n" + x) + Shift(x, line)) + Shift(x, rest))
  {
    hide Shift;
    var comma := Separator(first);
    ShiftConcat(x, comma + ("\n" + line), rest);
    ShiftConcat(x, comma, "\n" + line);
    ShiftConcat(x, "\n", line);
    ShiftBreak(x);
    ShiftNothing(x, comma);
    LeadRegrouped(comma, "\n" + x, Shift(x, line), Shift(x, rest));
  }

  lemma LeadRegrouped(a: string, b: string, c: string, d: string)
    ensures a + (b + c) + d == a + ((b + c) + d)
    ensures a == "" ==> a + (b + c) + d == (b + c) + d
  {
  }

  /** Behind a member's line stands the rest of the list. */
  lemma MembersRest(before: string, x: string, realText: nat -> string, m: Entries)
    requires m.Entry?
    ensures var line := ("\n" + x) + Shift(x, MemberLine(realText, m.key, m.value));
      if m.rest.Nil? then before + line == before + MembersOnward(x, realText, m)
      else before + line + "," + MembersOnward(x, realText, m.rest) == before + MembersOnward(x, realText, m)
  {
    hide Shift, MemberLine;
    var line := ("\n" + x) + Shift(x, MemberLine(realText, m.key, m.value));
    if m.rest.Nil? {
      ShiftNone(x);
      assert line + "" == line;
    } else {
      MembersLead(x, realText, m.rest);
      BesideComma(before, line, MembersOnward(x, realText, m.rest));
    }
  }

  lemma BesideComma(before: string, line: string, rest: string)
    ensures before + line + "," + rest == before + (line + ("," + rest))
  {
  }

  lemma ShiftMember(x: string, realText: nat -> string, k: Key, v: Value)
    ensures Shift(x, MemberLine(realText, k, v)) == Quoted(PrintedName(KeyText(k))) + " : " + Shift(x, StyledText(realText, v))
  {
    hide Shift, Quoted, PrintedName, StyledText, NoBreak;
    var name := Quoted(PrintedName(KeyText(k)));
    QuotedHasNoBreak(PrintedName(KeyText(k)));
    ShiftConcat(x, name + " : ", StyledText(realText, v));
    ShiftConcat(x, name, " : ");
    ShiftNothing(x, name);
    assert NoBreak(" : ") by { ColonNoBreak(); }
    ShiftNothing(x, " : ");
  }

  lemma ColonNoBreak()
    ensures NoBreak(" : ")
  {
  }

  /** The lines from element `i` on without a leading comma. */
  function ItemsOnward(x: string, realText: nat -> string, e: Entries, i: nat, n: nat): string {
    (("\n" + x) + Shift(x, StyledText(realText, At(e, i)))) + Shift(x, ItemLines(realText, e, i + 1, n))
  }

  lemma ItemsLead(x: string, realText: nat -> string, e: Entries, i: nat, n: nat)
    requires i < n
    ensures Shift(x, ItemLines(realText, e, i, n)) == if i == 0 then ItemsOnward(x, realText, e, i, n) else "," + ItemsOnward(x, realText, e, i, n)
  {
    hide Shift, StyledText, At;
    ShiftLead(x, i == 0, StyledText(realText, At(e, i)), ItemLines(realText, e, i + 1, n));
  }

  lemma ItemsRest(before: string, x: string, realText: nat -> string, e: Entries, i: nat, n: nat)
    requires i < n
    ensures var line := ("\n" + x) + Shift(x, StyledText(realText, At(e, i)));
      if i + 1 == n then before + line == before + ItemsOnward(x, realText, e, i, n)
      else before + line + "," + ItemsOnward(x, realText, e, i + 1, n) == before + ItemsOnward(x, realText, e, i, n)
  {
    hide Shift, StyledText, At;
    var line := ("\n" + x) + Shift(x, StyledText(realText, At(e, i)));
    if i + 1 == n {
      ShiftNone(x);
      assert line + "" == line;
    } else {
      ItemsLead(x, realText, e, i + 1, n);
      BesideComma(before, line, ItemsOnward(x, realText, e, i + 1, n));
    }
  }

  lemma MembersTextSome(realText: nat -> string, e: Entries)
    requires e.Entry?
    ensures MemberLines(realText, e, true) != ""
  {
    hide MemberLine;
  }

  lemma ItemsTextSome(realText: nat -> string, e: Entries, n: nat)
    requires n > 0
    ensures ItemLines(realText, e, 0, n) != ""
  {
    hide StyledText, At;
  }

  lemma ShiftLineText(x: string, realText: nat -> string, e: Entries)
    requires PlainReals(realText) && OneLine(realText, e) && 0 < ArraySize(e)
    ensures Shift(x, StyledText(realText, Array(e))) == "[ " + InLine(realText, e, 0, ArraySize(e)) + " ]"
  {
    hide Shift, PlainReals, InLine, At;
    LineNoBreak(realText, e, 0, ArraySize(e));
    ShiftNothing(x, LineText(realText, e));
  }

  lemma {:induction false} LineNoBreak(realText: nat -> string, e: Entries, i: nat, n: nat)
    requires PlainReals(realText) && AllFlat(e, n)
    ensures NoBreak(InLine(realText, e, i, n))
    decreases n - i
  {
    hide At, PlainReals, FlatText, Flat;
    if i < n {
      FlatLaid(realText, At(e, i));
      LineNoBreak(realText, e, i + 1, n);
    }
  }

  function TextLengths(realText: nat -> string, e: Entries, n: nat): nat {
    if n == 0 then 0 else TextLengths(realText, e, n - 1) + |FlatText(realText, At(e, n - 1))|
  }

  /** The length isMultineArray adds up is that of the line. */
  lemma {:induction false} InLineLengths(realText: nat -> string, e: Entries, i: nat, n: nat)
    requires i <= n
    ensures |InLine(realText, e, i, n)| + TextLengths(realText, e, i)
         == TextLengths(realText, e, n) + (if i < n then 2 * (n - i) - (if i == 0 then 2 else 0) else 0)
    decreases n - i
  {
    hide FlatText, At;
    if i < n { InLineLengths(realText, e, i + 1, n); }
  }

  lemma InLineEnd(realText: nat -> string, e: Entries, n: nat)
    ensures InLine(realText, e, n, n) == ""
  {
  }

  lemma InLineNext(before: string, realText: nat -> string, e: Entries, i: nat, n: nat)
    requires i < n
    ensures before + InLine(realText, e, i, n)
         == before + (if i > 0 then ", " else "") + FlatText(realText, At(e, i)) + InLine(realText, e, i + 1, n)
  {
    hide FlatText, At;
  }

  lemma NoLengths(realText: nat -> string, e: Entries)
    ensures TextLengths(realText, e, 0) == 0
  {
  }

  lemma MoreLength(a: nat, realText: nat -> string, e: Entries, i: nat)
    ensures ((a + TextLengths(realText, e, i)) % TWO_TO_THE_32 + |FlatText(realText, At(e, i))|) % TWO_TO_THE_32
         == (a + TextLengths(realText, e, i + 1)) % TWO_TO_THE_32
  {
    hide FlatText, At;
    AddModulo(a + TextLengths(realText, e, i), |FlatText(realText, At(e, i))|);
  }

  lemma AddModulo(a: nat, b: nat)
    ensures (a % TWO_TO_THE_32 + b) % TWO_TO_THE_32 == (a + b) % TWO_TO_THE_32
  {
  }

  lemma LineLength(realText: nat -> string, e: Entries, n: nat)
    requires n == ArraySize(e) && 0 < n
    ensures |LineText(realText, e)| == 4 + (n - 1) * 2 + TextLengths(realText, e, n)
  {
    hide InLine, ArraySize, At, FlatText;
    InLineLengths(realText, e, 0, n);
  }
}
