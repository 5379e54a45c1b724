/** What Json::StyledWriter writes for trees without comments.

    `StyledText` gives the text of a value as it stands at the left margin.  Nested texts are shifted
    by three spaces; an array goes on one line if it is flat and the line stays below column 74.
    `LayoutKeepsMeaning`: stripped of white space outside string literals, the text is FastWriter's. */
module JsonStyledText {
  import opened JsonValue
  import opened JsonNumber
  import opened JsonString
  import opened JsonScanner
  import opened JsonFastWriter
  import opened JsonLayout

  // ----- the trees it prints ---------------------------------------------------------------------

  /** No element of an array is an object whose member count is a positive multiple of 2^32: the
      single-line test takes its size for 0, and the source then reads a text it never cached. */
  predicate Printable(v: Value) {
    match v
    case Array(e) => EntriesSized(e) && EntriesPrintable(e)
    case Object(e) => EntriesPrintable(e)
    case _ => true
  }

  predicate EntriesPrintable(e: Entries) { e.Entry? ==> Printable(e.value) && EntriesPrintable(e.rest) }

  predicate Sized(v: Value) { v.Object? && Count(v.entries) % TWO_TO_THE_32 == 0 ==> v.entries.Nil? }

  predicate EntriesSized(e: Entries) { e.Entry? ==> Sized(e.value) && EntriesSized(e.rest) }

  lemma {:induction false} FoundIsPrintable(e: Entries, k: Key)
    requires EntriesPrintable(e) && Find(e, k).Some?
    ensures Printable(Find(e, k).value) && (EntriesSized(e) ==> Sized(Find(e, k).value))
  {
    if e.key != k { FoundIsPrintable(e.rest, k); }
  }

  lemma {:induction false} DropIsPrintable(e: Entries, i: nat)
    requires EntriesPrintable(e) && i < Count(e)
    ensures Drop(e, i).Entry? && Printable(Drop(e, i).value)
  {
    if i > 0 { DropIsPrintable(e.rest, i - 1); }
  }

  // ----- what it prints of a tree -----------------------------------------------------------------

  /** A member name as it is printed: up to its first NUL byte. */
  function PrintedName(name: string): string { CString(name + [NUL]) }

  function PrintedKey(k: Key): Key { if k.Name? then Name(PrintedName(k.name)) else k }

  /** The tree with its member names cut. */
  function Printed(v: Value): Value {
    match v
    case Array(e) => Array(PrintedAll(e))
    case Object(e) => Object(PrintedAll(e))
    case _ => v
  }

  function PrintedAll(e: Entries): Entries {
    if e.Nil? then Nil else Entry(PrintedKey(e.key), Printed(e.value), PrintedAll(e.rest))
  }

  lemma {:induction false} PrintedFind(e: Entries, i: nat)
    ensures Find(PrintedAll(e), Index(i)) == if Find(e, Index(i)).Some? then Some(Printed(Find(e, Index(i)).value)) else None
  {
    hide PrintedName;
    if e.Entry? { PrintedFind(e.rest, i); }
  }

  lemma {:induction false} PrintedSpan(e: Entries)
    ensures Span(PrintedAll(e)) == Span(e) && PrintedAll(e).Nil? == e.Nil?
  {
    hide PrintedName;
    if e.Entry? { PrintedSpan(e.rest); }
  }

  lemma PrintedAt(e: Entries, i: nat)
    ensures At(PrintedAll(e), i) == Printed(At(e, i))
  {
    PrintedFind(e, i);
  }

  lemma PrintedSize(e: Entries)
    ensures ArraySize(PrintedAll(e)) == ArraySize(e)
  {
    PrintedSpan(e);
  }

  /** Member names go through a C string: the printed name is the whole name exactly when it
      holds no NUL byte. */
  lemma NamePrintedWhole(name: string)
    ensures NUL !in name ==> PrintedName(name) == name
    ensures NUL in name ==> |Quoted(PrintedName(name))| < |Quoted(name)|
  {
    hide EscapedText, CString;
    var c := PrintedName(name);
    if NUL !in name {
      CStringOfTerminated(name, []);
      assert name + [NUL] + [] == name + [NUL];
    } else {
      var i :| 0 <= i < |name| && name[i] == NUL;
      assert (name + [NUL])[i] == NUL;
      assert |c| <= i;
      assert c == name[..|c|];
      assert name == c + name[|c|..];
      LongerText(c, name[|c|..]);
    }
  }

  lemma {:induction false} LongerText(a: string, b: string)
    requires b != []
    ensures |EscapedText(a + b)| > |EscapedText(a)|
  {
    if a == [] {
      assert a + b == b;
    } else {
      assert (a + b)[1..] == a[1..] + b;
      LongerText(a[1..], b);
    }
  }

  // ----- when cutting the names changes nothing ----------------------------------------------------

  /** No member name that is printed holds a NUL byte. */
  predicate NulFree(v: Value)
    decreases Weight(v), 0, 0
  {
    match v
    case Array(e) => ItemsNulFree(e, 0, ArraySize(e))
    case Object(e) => MembersNulFree(e)
    case _ => true
  }

  predicate ItemsNulFree(e: Entries, i: nat, n: nat)
    decreases EntriesWeight(e), 1, n - i
  {
    i < n ==> NulFree(At(e, i)) && ItemsNulFree(e, i + 1, n)
  }

  predicate MembersNulFree(e: Entries)
    decreases EntriesWeight(e), 1, 0
  {
    e.Entry? ==> NUL !in KeyText(e.key) && NulFree(e.value) && MembersNulFree(e.rest)
  }

  /** The texts are the same, or one is shorter. */
  predicate SameOrShorter(same: bool, a: string, b: string) { if same then a == b else |a| < |b| }

  lemma {:induction false} PrintedText(o: Options, v: Value)
    ensures SameOrShorter(NulFree(v), FastText(o, Printed(v)), FastText(o, v))
    decreases Weight(v), 0, 0
  {
    hide PrintedAll, ItemsText, MembersText;
    match v {
      case Array(e) =>
        PrintedSize(e);
        PrintedItemsText(o, e, 0, ArraySize(e));
      case Object(e) => PrintedMembersText(o, e, true);
      case _ =>
    }
  }

  lemma {:induction false} PrintedItemsText(o: Options, e: Entries, i: nat, n: nat)
    ensures SameOrShorter(ItemsNulFree(e, i, n), ItemsText(o, PrintedAll(e), i, n), ItemsText(o, e, i, n))
    decreases EntriesWeight(e), 1, n - i
  {
    hide FastText, At, NulFree, PrintedAll, Printed;
    if i < n {
      PrintedAt(e, i);
      PrintedText(o, At(e, i));
      PrintedItemsText(o, e, i + 1, n);
    }
  }

  lemma {:induction false} PrintedMembersText(o: Options, e: Entries, first: bool)
    ensures SameOrShorter(MembersNulFree(e), MembersText(o, PrintedAll(e), first), MembersText(o, e, first))
    decreases EntriesWeight(e), 1, 0
  {
    hide FastText, NulFree, Printed, PrintedName, Quoted;
    if e.Entry? {
      var name := KeyText(e.key);
      PrintedKeyText(e.key);
      NamePrintedWhole(name);
      PrintedText(o, e.value);
      PrintedMembersText(o, e.rest, false);
    }
  }

  lemma PrintedKeyText(k: Key)
    ensures KeyText(PrintedKey(k)) == PrintedName(KeyText(k))
  {
    assert "" + [NUL] == [NUL];
  }

  lemma {:induction false} PrintedTokens(realText: nat -> string, v: Value)
    requires NulFree(v)
    ensures ValueTokens(realText, Printed(v)) == ValueTokens(realText, v)
    decreases Weight(v), 0, 0
  {
    hide PrintedAll, ItemTokens, MemberTokens;
    match v {
      case Array(e) =>
        PrintedSize(e);
        PrintedItemTokens(realText, e, 0, ArraySize(e));
      case Object(e) => PrintedMemberTokens(realText, e, true);
      case _ =>
    }
  }

  lemma {:induction false} PrintedItemTokens(realText: nat -> string, e: Entries, i: nat, n: nat)
    requires ItemsNulFree(e, i, n)
    ensures ItemTokens(realText, PrintedAll(e), i, n) == ItemTokens(realText, e, i, n)
    decreases EntriesWeight(e), 1, n - i
  {
    hide ValueTokens, At, NulFree, PrintedAll, Printed;
    if i < n {
      PrintedAt(e, i);
      PrintedTokens(realText, At(e, i));
      PrintedItemTokens(realText, e, i + 1, n);
    }
  }

  lemma {:induction false} PrintedMemberTokens(realText: nat -> string, e: Entries, first: bool)
    requires MembersNulFree(e)
    ensures MemberTokens(realText, PrintedAll(e), first) == MemberTokens(realText, e, first)
    decreases EntriesWeight(e), 1, 0
  {
    hide ValueTokens, NulFree, Printed, PrintedName, Quoted;
    if e.Entry? {
      PrintedKeyText(e.key);
      NamePrintedWhole(KeyText(e.key));
      PrintedTokens(realText, e.value);
      PrintedMemberTokens(realText, e.rest, false);
    }
  }

  /** Scalars and empty containers: what a single-line array may hold. */
  predicate Flat(v: Value) {
    match v
    case Array(e) => ArraySize(e) == 0
    case Object(e) => e.Nil?
    case _ => true
  }

  function FastOptions(realText: nat -> string): Options { Options(false, false, true, realText) }

  // ----- the text ----------------------------------------------------------------------------------

  function Shifted(indent: string, c: char): string { if c == '\n' then "\n" + indent else [c] }

  /** The text with `indent` behind every line feed. */
  function Shift(indent: string, s: string): string {
    if s == [] then [] else Shifted(indent, s[0]) + Shift(indent, s[1..])
  }

  /** The line break in front of a closing bracket; behind a space there is none. */
  function Break(s: string): string { if s != "" && s[|s| - 1] == ' ' then "" else "\n" }

  /** An opening bracket, lines shifted by three spaces, a closing bracket on its own line. */
  function Block(open: string, lines: string, close: string): string {
    var body := open + Shift("   ", lines);
    body + Break(body) + close
  }

  /** The text of a scalar or an empty container. */
  function FlatText(realText: nat -> string, v: Value): string {
    if v.Array? then "[]" else if v.Object? then "{}" else FastText(FastOptions(realText), v)
  }

  /** Elements i up to n, side by side. */
  function InLine(realText: nat -> string, e: Entries, i: nat, n: nat): string
    decreases n - i
  {
    if i >= n then "" else (if i == 0 then "" else ", ") + FlatText(realText, At(e, i)) + InLine(realText, e, i + 1, n)
  }

  function LineText(realText: nat -> string, e: Entries): string { "[ " + InLine(realText, e, 0, ArraySize(e)) + " ]" }

  predicate AllFlat(e: Entries, n: nat) { forall i: nat :: i < n ==> Flat(At(e, i)) }

  /** An array on one line: all its elements are flat and the line ends before column 74.  Both the
      size estimate and the length are 32-bit numbers. */
  predicate OneLine(realText: nat -> string, e: Entries) {
    && ArraySize(e) * 3 % TWO_TO_THE_32 < 74 && AllFlat(e, ArraySize(e))
    && |LineText(realText, e)| % TWO_TO_THE_32 < 74
  }

  function StyledText(realText: nat -> string, v: Value): string
    decreases Weight(v), 0, 0
  {
    match v
    case Array(e) =>
      if ArraySize(e) == 0 then "[]"
      else if OneLine(realText, e) then LineText(realText, e)
      else Block("[", ItemLines(realText, e, 0, ArraySize(e)), "]")
    case Object(e) => if e.Nil? then "{}" else Block("{", MemberLines(realText, e, true), "}")
    case _ => FlatText(realText, v)
  }

  /** Elements i up to n, each on a new line. */
  function ItemLines(realText: nat -> string, e: Entries, i: nat, n: nat): string
    decreases EntriesWeight(e), 1, n - i
  {
    if i >= n then "" else Separator(i == 0) + ("\n" + StyledText(realText, At(e, i))) + ItemLines(realText, e, i + 1, n)
  }

  function MemberLines(realText: nat -> string, e: Entries, first: bool): string
    decreases EntriesWeight(e), 1, 0
  {
    if e.Nil? then ""
    else Separator(first) + ("\n" + MemberLine(realText, e.key, e.value)) + MemberLines(realText, e.rest, false)
  }

  function MemberLine(realText: nat -> string, k: Key, v: Value): string
    decreases Weight(v), 1, 0
  {
    Quoted(PrintedName(KeyText(k))) + " : " + StyledText(realText, v)
  }

  // ----- shifting ------------------------------------------------------------------------------------

  predicate NoBreak(s: string) { '\n' !in s }

  lemma {:induction false} ShiftConcat(x: string, a: string, b: string)
    ensures Shift(x, a + b) == Shift(x, a) + Shift(x, b)
  {
    if a == [] {
      assert a + b == b;
    } else {
      assert (a + b)[1..] == a[1..] + b;
      ShiftConcat(x, a[1..], b);
    }
  }

  lemma {:induction false} ShiftNothing(x: string, s: string)
    requires NoBreak(s)
    ensures Shift(x, s) == s
  {
    if s != [] {
      assert NoBreak(s[1..]);
      ShiftNothing(x, s[1..]);
    }
  }

  lemma {:induction false} NoShift(s: string)
    ensures Shift("", s) == s
  {
    if s != [] {
      NoShift(s[1..]);
      assert "\n" + "" == "\n";
    }
  }

  lemma ShiftBreak(x: string)
    ensures Shift(x, "\n") == "\n" + x
  {
    assert "\n"[1..] == "";
    assert Shift(x, "") == "";
  }

  lemma ShiftFirst(x: string, s: string)
    requires s != ""
    ensures Shift(x, s) == Shifted(x, s[0]) + Shift(x, s[1..])
  {
  }

  lemma ShiftedTwice(x: string, y: string, c: char)
    requires NoBreak(y)
    ensures Shift(x, Shifted(y, c)) == Shifted(x + y, c)
  {
    hide Shift;
    if c == '\n' {
      ShiftConcat(x, "\n", y);
      ShiftBreak(x);
      ShiftNothing(x, y);
      Regroup("\n", x, y);
    } else {
      ShiftNothing(x, [c]);
    }
  }

  /** Shifting twice is shifting by both. */
  lemma {:induction false} ShiftTwice(x: string, y: string, s: string)
    requires NoBreak(y)
    ensures Shift(x, Shift(y, s)) == Shift(x + y, s)
  {
    hide Shift, Shifted, NoBreak;
    if s == "" {
      assert s == [] && Shift(x, "") == "" && Shift(y, "") == "" && Shift(x + y, "") == "" by { ShiftNone(x); ShiftNone(y); ShiftNone(x + y); }
    } else {
      ShiftTwice(x, y, s[1..]);
      ShiftFirst(y, s);
      ShiftFirst(x + y, s);
      ShiftedTwice(x, y, s[0]);
      ShiftConcat(x, Shifted(y, s[0]), Shift(y, s[1..]));
    }
  }

  lemma ShiftNone(x: string)
    ensures Shift(x, "") == ""
  {
  }

  lemma {:induction false} ShiftEnd(x: string, s: string)
    requires s != "" && s[|s| - 1] != '\n'
    ensures Shift(x, s) != "" && Shift(x, s)[|Shift(x, s)| - 1] == s[|s| - 1]
  {
    if |s| == 1 {
      assert s[1..] == "";
      assert Shift(x, s[1..]) == "";
    } else {
      ShiftEnd(x, s[1..]);
    }
  }

  lemma {:induction false} ShiftedEnd(s: string)
    requires s != ""
    ensures Shift("   ", s) != "" && Shift("   ", s)[|Shift("   ", s)| - 1] != '\n'
  {
    if |s| == 1 {
      assert s[1..] == "";
      assert Shift("   ", s[1..]) == "";
    } else {
      ShiftedEnd(s[1..]);
    }
  }

  // ----- its tokens ----------------------------------------------------------------------------------

  /** valueToString(double) prints something, and neither quotes nor white space. */
  ghost predicate PlainReals(realText: nat -> string) { forall x :: Bare(realText(x)) && realText(x) != "" }

  predicate NoBreaks(toks: seq<string>) { forall i :: 0 <= i < |toks| ==> NoBreak(toks[i]) }

  lemma EscapedCharHasNoBreak(c: char)
    ensures NoBreak(EscapedChar(c))
  {
    if EscapeLetter(c).None? && (IsControl(c) || c == NUL) {
      var t := FourHexDigits(c as int);
      assert t[0] != '\n' && t[1] != '\n' && t[2] != '\n' && t[3] != '\n';
    }
  }

  lemma {:induction false} EscapedHasNoBreak(s: string)
    ensures NoBreak(EscapedText(s))
  {
    hide EscapedChar;
    if s != [] {
      EscapedHasNoBreak(s[1..]);
      EscapedCharHasNoBreak(s[0]);
    }
  }

  lemma QuotedHasNoBreak(s: string)
    ensures NoBreak(Quoted(s))
  {
    hide EscapedText;
    EscapedHasNoBreak(s);
  }

  // ----- the text is a layout of the tokens ------------------------------------------------------------

  lemma BareLaid(tok: string)
    requires Bare(tok) && tok != ""
    ensures Laid([tok], tok)
  {
    BareIsKept(tok);
    LaidAlone(tok);
  }

  lemma QuotedLaid(s: string)
    ensures Laid([Quoted(s)], Quoted(s))
  {
    hide EscapedText, Strip, ModeAfter, Laid;
    QuotedIsKept(s);
    LaidAlone(Quoted(s));
  }

  /** The fixed pieces of layout and their tokens. */
  lemma MarksLaid()
    ensures Laid(["{"], "{") && Laid(["}"], "}") && Laid(["["], "[") && Laid(["]"], "]") && Laid([","], ",") && Laid([":"], ":")
    ensures Laid([], " ") && Laid([], "\n") && Laid([], "")
  {
    hide Laid;
    BareLaid("{");
    BareLaid("}");
    BareLaid("[");
    BareLaid("]");
    BareLaid(",");
    BareLaid(":");
    LaidSpace(" ");
    LaidSpace("\n");
    LaidSpace("");
  }

  lemma SpacedMarksLaid()
    ensures Laid(["["], "[ ") && Laid(["]"], " ]") && Laid([","], ", ") && Laid([":"], " : ")
    ensures Laid(["{", "}"], "{}") && Laid(["[", "]"], "[]")
  {
    hide Laid;
    MarksLaid();
    LaidPair(["["], "[", [], " ", ["["], "[ ");
    LaidPair([], " ", ["]"], "]", ["]"], " ]");
    LaidPair([","], ",", [], " ", [","], ", ");
    LaidPair([], " ", [":"], ":", [":"], " :");
    LaidPair([":"], " :", [], " ", [":"], " : ");
    LaidPair(["{"], "{", ["}"], "}", ["{", "}"], "{}");
    LaidPair(["["], "[", ["]"], "]", ["[", "]"], "[]");
  }

  lemma LaidPair(a: seq<string>, s: string, b: seq<string>, t: string, toks: seq<string>, text: string)
    requires Laid(a, s) && Laid(b, t) && a + b == toks && s + t == text
    ensures Laid(toks, text)
  {
    LaidConcat(a, s, b, t);
  }

  lemma LaidThree(a: seq<string>, s: string, b: seq<string>, t: string, c: seq<string>, u: string)
    requires Laid(a, s) && Laid(b, t) && Laid(c, u)
    ensures Laid(a + b + c, s + t + u)
  {
    LaidConcat(a, s, b, t);
    LaidConcat(a + b, s + t, c, u);
  }

  lemma {:induction false} SpaceShifts(x: string, s: string)
    requires AllSpace(x) && AllSpace(s)
    ensures AllSpace(Shift(x, s))
  {
    if s != "" {
      assert AllSpace(s[1..]);
      SpaceShifts(x, s[1..]);
    }
  }

  /** Shifting the lines of a layout gives a layout of the same tokens. */
  lemma {:induction false} ShiftLaid(x: string, toks: seq<string>, s: string)
    requires AllSpace(x) && NoBreaks(toks) && Laid(toks, s)
    ensures Laid(toks, Shift(x, s))
    decreases |toks|
  {
    hide Laid, Solid, AllSpace, Shift;
    if toks == [] {
      NoTokens(s);
      SpaceShifts(x, s);
      NoTokens(Shift(x, s));
    } else {
      var w, rest := LaidParts(toks, s);
      ShiftLaid(x, toks[1..], rest);
      SpaceShifts(x, w);
      ShiftConcat(x, w, toks[0] + rest);
      ShiftConcat(x, toks[0], rest);
      ShiftNothing(x, toks[0]);
      LaidCons(Shift(x, w), toks[0], toks[1..], Shift(x, rest));
      assert [toks[0]] + toks[1..] == toks;
    }
  }

  lemma BlockLaid(open: string, toks: seq<string>, lines: string, close: string)
    requires Laid([open], open) && Laid([close], close) && NoBreaks(toks) && Laid(toks, lines)
    ensures Laid([open] + toks + [close], Block(open, lines, close))
  {
    hide Laid, Shift;
    var inner := Shift("   ", lines);
    ShiftLaid("   ", toks, lines);
    LaidConcat([open], open, toks, inner);
    MarksLaid();
    var b := Break(open + inner);
    assert Laid([], b);
    LaidThree([open] + toks, open + inner, [], b, [close], close);
    assert [open] + toks + [] == [open] + toks;
  }

  lemma FlatLaid(realText: nat -> string, v: Value)
    requires PlainReals(realText) && Flat(v)
    ensures Laid(ValueTokens(realText, Printed(v)), FlatText(realText, v))
    ensures NoBreaks(ValueTokens(realText, Printed(v))) && NoBreak(FlatText(realText, v))
  {
    hide Laid, Quoted, IntText;
    match v {
      case Array(e) =>
        SpacedMarksLaid();
        PrintedSize(e);
        assert ["["] + [] + ["]"] == ["[", "]"];
      case Object(e) =>
        SpacedMarksLaid();
        assert ["{"] + [] + ["}"] == ["{", "}"];
      case NullString => MarksLaid();
      case String(s) =>
        QuotedLaid(s);
        QuotedHasNoBreak(s);
      case Int(i) => IntLaid(i);
      case UInt(u) => IntLaid(u);
      case Real(x) => WordLaid(realText(x));
      case Null => WordLaid("null");
      case Bool(b) => WordLaid(BoolText(b));
    }
  }

  lemma WordLaid(tok: string)
    ensures Bare(tok) && tok != "" ==> Laid([tok], tok) && NoBreak(tok)
  {
    if Bare(tok) && tok != "" { BareLaid(tok); }
  }

  lemma IntLaid(n: int)
    ensures Laid([IntText(n)], IntText(n)) && NoBreak(IntText(n))
  {
    hide Laid;
    IntTextIsBare(n);
    BareLaid(IntText(n));
  }

  lemma {:induction false} StyledLaid(realText: nat -> string, v: Value)
    requires PlainReals(realText)
    ensures Laid(ValueTokens(realText, Printed(v)), StyledText(realText, v)) && NoBreaks(ValueTokens(realText, Printed(v)))
    decreases Weight(v), 0, 0
  {
    hide Laid, PlainReals, InLine, ItemLines, MemberLines, ItemTokens, MemberTokens, PrintedAll, Block;
    if Flat(v) {
      FlatLaid(realText, v);
    } else if v.Array? {
      var e := v.entries;
      var n := ArraySize(e);
      PrintedSize(e);
      if OneLine(realText, e) {
        InLineLaid(realText, e, 0, n);
        SpacedMarksLaid();
        LaidThree(["["], "[ ", ItemTokens(realText, PrintedAll(e), 0, n), InLine(realText, e, 0, n), ["]"], " ]");
      } else {
        ItemLinesLaid(realText, e, 0, n);
        MarksLaid();
        BlockLaid("[", ItemTokens(realText, PrintedAll(e), 0, n), ItemLines(realText, e, 0, n), "]");
      }
    } else {
      var e := v.entries;
      MemberLinesLaid(realText, e, true);
      MarksLaid();
      BlockLaid("{", MemberTokens(realText, PrintedAll(e), true), MemberLines(realText, e, true), "}");
    }
  }

  lemma {:induction false} InLineLaid(realText: nat -> string, e: Entries, i: nat, n: nat)
    requires PlainReals(realText) && AllFlat(e, n)
    ensures Laid(ItemTokens(realText, PrintedAll(e), i, n), InLine(realText, e, i, n))
    ensures NoBreaks(ItemTokens(realText, PrintedAll(e), i, n))
    decreases n - i
  {
    hide Laid, PlainReals, PrintedAll, At, Flat, ValueTokens, FlatText;
    if i < n {
      PrintedAt(e, i);
      FlatLaid(realText, At(e, i));
      InLineLaid(realText, e, i + 1, n);
      SpacedMarksLaid();
      MarksLaid();
      var toks, t := ValueTokens(realText, Printed(At(e, i))), FlatText(realText, At(e, i));
      LaidThree(Comma(i == 0), if i == 0 then "" else ", ", toks, t, ItemTokens(realText, PrintedAll(e), i + 1, n), InLine(realText, e, i + 1, n));
    } else {
      MarksLaid();
    }
  }

  lemma {:induction false} ItemLinesLaid(realText: nat -> string, e: Entries, i: nat, n: nat)
    requires PlainReals(realText)
    ensures Laid(ItemTokens(realText, PrintedAll(e), i, n), ItemLines(realText, e, i, n))
    ensures NoBreaks(ItemTokens(realText, PrintedAll(e), i, n))
    decreases EntriesWeight(e), 1, n - i
  {
    hide Laid, PlainReals, PrintedAll, At, ValueTokens, StyledText;
    MarksLaid();
    if i < n {
      PrintedAt(e, i);
      StyledLaid(realText, At(e, i));
      ItemLinesLaid(realText, e, i + 1, n);
      var toks, t := ValueTokens(realText, Printed(At(e, i))), StyledText(realText, At(e, i));
      LaidPair([], "\n", toks, t, toks, "\n" + t);
      LaidThree(Comma(i == 0), Separator(i == 0), toks, "\n" + t, ItemTokens(realText, PrintedAll(e), i + 1, n), ItemLines(realText, e, i + 1, n));
    }
  }

  lemma {:induction false} MemberLinesLaid(realText: nat -> string, e: Entries, first: bool)
    requires PlainReals(realText)
    ensures Laid(MemberTokens(realText, PrintedAll(e), first), MemberLines(realText, e, first))
    ensures NoBreaks(MemberTokens(realText, PrintedAll(e), first))
    decreases EntriesWeight(e), 1, 0
  {
    hide Laid, PlainReals, ValueTokens, MemberLine, Quoted, PrintedKey, PrintedName;
    MarksLaid();
    if e.Entry? {
      var toks := [Quoted(PrintedName(KeyText(e.key))), ":"] + ValueTokens(realText, Printed(e.value));
      PrintedKeyText(e.key);
      MemberLineLaid(realText, e.key, e.value);
      MemberLinesLaid(realText, e.rest, false);
      var t := MemberLine(realText, e.key, e.value);
      LaidPair([], "\n", toks, t, toks, "\n" + t);
      LaidThree(Comma(first), Separator(first), toks, "\n" + t, MemberTokens(realText, PrintedAll(e.rest), false), MemberLines(realText, e.rest, false));
    }
  }

  lemma {:induction false} MemberLineLaid(realText: nat -> string, k: Key, v: Value)
    requires PlainReals(realText)
    ensures var toks := [Quoted(PrintedName(KeyText(k))), ":"] + ValueTokens(realText, Printed(v));
      Laid(toks, MemberLine(realText, k, v)) && NoBreaks(toks)
    decreases Weight(v), 1, 0
  {
    hide Laid, PlainReals, ValueTokens, StyledText, Quoted, PrintedName;
    var name := Quoted(PrintedName(KeyText(k)));
    QuotedLaid(PrintedName(KeyText(k)));
    QuotedHasNoBreak(PrintedName(KeyText(k)));
    SpacedMarksLaid();
    StyledLaid(realText, v);
    LaidThree([name], name, [":"], " : ", ValueTokens(realText, Printed(v)), StyledText(realText, v));
    assert [name] + [":"] == [name, ":"];
  }

  /** What write() returns. */
  function Document(realText: nat -> string, v: Value): string { StyledText(realText, v) + "\n" }

  lemma DocumentLaid(realText: nat -> string, v: Value)
    requires PlainReals(realText)
    ensures Laid(ValueTokens(realText, Printed(v)), Document(realText, v))
  {
    hide Laid, StyledText, ValueTokens;
    StyledLaid(realText, v);
    MarksLaid();
    LaidConcat(ValueTokens(realText, Printed(v)), StyledText(realText, v), [], "\n");
    assert ValueTokens(realText, Printed(v)) + [] == ValueTokens(realText, Printed(v));
  }

  /** Layout never changes meaning, exactly: what StyledWriter writes strips to FastWriter's text if
      and only if no printed member name holds a NUL byte. */
  lemma LayoutKeepsMeaning(realText: nat -> string, v: Value)
    requires PlainReals(realText)
    ensures Strip(Outside, Document(realText, v)) == FastText(FastOptions(realText), Printed(v))
    ensures Strip(Outside, Document(realText, v)) == FastText(FastOptions(realText), v) <==> NulFree(v)
  {
    hide Laid, Strip, FastText, ValueTokens, Printed, NulFree, Document;
    DocumentLaid(realText, v);
    LayoutShowsFastText(FastOptions(realText), Printed(v), Document(realText, v));
    PrintedText(FastOptions(realText), v);
  }

  // ----- the right margin ------------------------------------------------------------------------------

  predicate NoNullStrings(e: Entries, n: nat) { forall i: nat :: i < n ==> !At(e, i).NullString? }

  lemma FlatTextSome(realText: nat -> string, v: Value)
    requires PlainReals(realText) && !v.NullString?
    ensures FlatText(realText, v) != ""
  {
    hide Quoted;
    if v.String? { assert |Quoted(v.text)| >= 2 by { QuotedLength(v.text); } }
  }

  lemma QuotedLength(s: string)
    ensures |Quoted(s)| >= 2
  {
  }

  lemma {:induction false} InLineLength(realText: nat -> string, e: Entries, i: nat, n: nat)
    requires PlainReals(realText) && NoNullStrings(e, n)
    ensures i < n ==> |InLine(realText, e, i, n)| >= 3 * (n - i) - if i == 0 then 2 else 0
    decreases n - i
  {
    hide At, FlatText;
    if i < n {
      FlatTextSome(realText, At(e, i));
      InLineLength(realText, e, i + 1, n);
    }
  }

  /** Which arrays go on one line: those whose elements are scalars or empty, if the line they make is
      shorter than the right margin. */
  lemma OneLineWithinMargin(realText: nat -> string, e: Entries)
    requires PlainReals(realText) && 0 < ArraySize(e) && NoNullStrings(e, ArraySize(e))
    requires |LineText(realText, e)| < TWO_TO_THE_32
    ensures OneLine(realText, e) <==> AllFlat(e, ArraySize(e)) && |LineText(realText, e)| < 74
  {
    hide InLine, ArraySize, AllFlat;
    InLineLength(realText, e, 0, ArraySize(e));
  }

  function Nulls(n: nat): Entries
    requires n > 0
  {
    Entry(Index(n - 1), Null, Nil)
  }

  lemma {:induction false} NullsInLine(realText: nat -> string, e: Entries, i: nat, n: nat)
    requires forall j: nat :: At(e, j) == Null
    ensures |InLine(realText, e, i, n)| == if i >= n then 0 else 6 * (n - i) - if i == 0 then 2 else 0
    decreases n - i
  {
    hide At;
    if i < n {
      assert FlatText(realText, At(e, i)) == "null";
      NullsInLine(realText, e, i + 1, n);
    }
  }

  /** The 32-bit estimates wrap: an array of 1431655766 nulls is written on one line of more than
      2^33 characters. */
  lemma MarginWraps(realText: nat -> string)
    ensures var e := Nulls(1431655766);
      WellFormed(Array(e)) && OneLine(realText, e) && |StyledText(realText, Array(e))| == 8589934598
  {
    hide InLine;
    var e := Nulls(1431655766);
    assert ArraySize(e) == 1431655766;
    NullsInLine(realText, e, 0, 1431655766);
  }

  // ----- an example ------------------------------------------------------------------------------------

  function Boxed(v: Value): Value { Array(Entry(Index(0), v, Nil)) }

  function Flags(): Value { Array(Entry(Index(0), Bool(true), Entry(Index(1), Object(Nil), Nil))) }

  lemma FlagsText(realText: nat -> string)
    ensures StyledText(realText, Flags()) == "[ true, {} ]"
  {
    var e := Flags().entries;
    assert At(e, 0) == Bool(true) && At(e, 1) == Object(Nil) && ArraySize(e) == 2;
    assert InLine(realText, e, 2, 2) == "";
    assert InLine(realText, e, 1, 2) == ", {}";
    assert InLine(realText, e, 0, 2) == "true, {}";
  }

  lemma BoxedItem(v: Value)
    ensures ArraySize(Boxed(v).entries) == 1 && At(Boxed(v).entries, 0) == v
    ensures AllFlat(Boxed(v).entries, 1) <==> Flat(v)
  {
    hide Flat;
    assert At(Boxed(v).entries, 0) == v;
  }

  /** An array of one flat element whose line is short. */
  lemma BoxedFlatText(realText: nat -> string, v: Value)
    requires Flat(v) && |FlatText(realText, v)| < 70
    ensures StyledText(realText, Boxed(v)) == "[ " + FlatText(realText, v) + " ]"
  {
    hide FlatText, At, ArraySize, Flat, AllFlat;
    var e := Boxed(v).entries;
    BoxedItem(v);
    assert InLine(realText, e, 1, 1) == "";
    assert InLine(realText, e, 0, 1) == FlatText(realText, v);
  }

  lemma BoxedNullText(realText: nat -> string)
    ensures StyledText(realText, Boxed(Null)) == "[ null ]"
  {
    hide StyledText;
    assert FlatText(realText, Null) == "null";
    BoxedFlatText(realText, Null);
  }

  lemma ShiftLine(x: string, a: string, b: string)
    requires NoBreak(a)
    ensures Shift(x, "\n" + a + b) == "\n" + x + a + Shift(x, b)
  {
    ShiftConcat(x, "\n" + a, b);
    ShiftConcat(x, "\n", a);
    ShiftBreak(x);
    ShiftNothing(x, a);
  }

  /** An array of one element that is not flat. */
  lemma BoxedDeepText(realText: nat -> string, v: Value)
    requires !Flat(v)
    ensures StyledText(realText, Boxed(v)) == Block("[", "\n" + StyledText(realText, v), "]")
  {
    hide Block, At, ArraySize, Flat, AllFlat, InLine;
    var e := Boxed(v).entries;
    BoxedItem(v);
    assert ItemLines(realText, e, 1, 1) == "";
    assert ItemLines(realText, e, 0, 1) == "\n" + StyledText(realText, v);
  }

  lemma OneShifted(line: string)
    requires NoBreak(line) && line != "" && line[|line| - 1] != ' '
    ensures Block("[", "\n" + line, "]") == "[\n   " + line + "\n]"
  {
    hide Shift;
    ShiftNone("   ");
    ShiftLine("   ", line, "");
    assert "\n" + line + "" == "\n" + line;
    var body := "[" + Shift("   ", "\n" + line);
    assert body == "[\n   " + line;
    assert body[|body| - 1] == line[|line| - 1];
  }

  lemma BoxedTwiceText(realText: nat -> string)
    ensures StyledText(realText, Boxed(Boxed(Null))) == "[\n   " + "[ null ]" + "\n]"
  {
    hide StyledText, Block;
    BoxedNullText(realText);
    assert !Flat(Boxed(Null)) by { BoxedItem(Null); }
    BoxedDeepText(realText, Boxed(Null));
    OneShifted("[ null ]");
  }

  lemma TwoLines(a: string, b: string)
    requires NoBreak(a) && NoBreak(b) && b != "" && b[|b| - 1] != ' '
    ensures Block("{", "\n" + a + ("\n" + b + ""), "}") == "{" + ("\n   " + a + ("\n   " + b + "")) + "\n" + "}"
  {
    hide Shift;
    ShiftNone("   ");
    ShiftLine("   ", b, "");
    ShiftLine("   ", a, "\n" + b + "");
    assert "\n" + "   " == "\n   ";
    var body := "{" + ("\n   " + a + ("\n   " + b + ""));
    assert body[|body| - 1] == b[|b| - 1];
  }

  /** Members on lines of their own, arrays and empty objects on one line. */
  lemma ExampleText(realText: nat -> string)
    ensures StyledText(realText, Object(Entry(Name("a"), Flags(), Entry(Name("b"), Object(Nil), Nil))))
         == "{" + ("\n   " + "\"a\" : [ true, {} ]," + ("\n   " + "\"b\" : {}" + "")) + "\n" + "}"
  {
    hide Shift, InLine, FastText, PrintedName, Quoted, StyledText, Block, Flags;
    var e1 := Entry(Name("b"), Object(Nil), Nil);
    var e := Entry(Name("a"), Flags(), e1);
    FlagsText(realText);
    SmallNames();
    assert StyledText(realText, Object(Nil)) == "{}" by { EmptyObjectText(realText); }
    LastLine(realText, e1);
    var a, b := "\"a\" : [ true, {} ]", "\"b\" : {}";
    assert MemberLine(realText, e.key, e.value) == a;
    JoinedLines(a, b);
    assert a + "," == "\"a\" : [ true, {} ],";
    TwoLines(a + ",", b);
    ObjectBlock(realText, e);
  }

  lemma JoinedLines(a: string, b: string)
    ensures "" + ("\n" + a) + (",\n" + b) == "\n" + (a + ",") + ("\n" + b + "")
  {
  }

  lemma LastLine(realText: nat -> string, e: Entries)
    requires e == Entry(Name("b"), Object(Nil), Nil)
    ensures MemberLines(realText, e, false) == ",\n" + "\"b\" : {}"
  {
    hide PrintedName, Quoted, FastText;
    SmallNames();
    EmptyObjectText(realText);
    assert MemberLines(realText, Nil, false) == "";
  }

  lemma EmptyObjectText(realText: nat -> string)
    ensures StyledText(realText, Object(Nil)) == "{}"
  {
  }

  lemma ObjectBlock(realText: nat -> string, e: Entries)
    requires e.Entry?
    ensures StyledText(realText, Object(e)) == Block("{", MemberLines(realText, e, true), "}")
  {
  }

  lemma SmallNames()
    ensures Quoted(PrintedName("a")) == "\"a\"" && Quoted(PrintedName("b")) == "\"b\""
  {
    NamePrintedWhole("a");
    NamePrintedWhole("b");
    assert "a"[1..] == "" && "b"[1..] == "";
    assert EscapedText("") == "";
    assert EscapedText("a") == "a" && EscapedText("b") == "b";
  }
}
