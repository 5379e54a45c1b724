/**
 * The escaped-list separator of external/boost/token_functions.hpp: a comma-separated line with
 * quotes and escapes. The roles of escape, separator and quote are given to sets of characters.
 */
module EscapedLists {

  datatype Marks = Marks(escapes: string, separators: string, quotes: string) {
    predicate Special(c: char) {
      c in escapes || c in separators || c in quotes
    }
  }

  /** How a run over a line ends: all fields returned, or an exception. */
  datatype Ending = Clean | CannotEndWithEscape | UnknownEscape

  /** The fields returned, in order, and what happens after the last of them. */
  datatype Listing = Listing(fields: seq<string>, ending: Ending)

  datatype Status = Field | Exhausted | Thrown(fault: Ending)

  // ---------------------------------------------------------------------------------------------
  // The declarative reading of a line
  // ---------------------------------------------------------------------------------------------

  /** Puts text in front of the first field. A listing without fields throws in that very field. */
  function Prepend(t: string, l: Listing): Listing {
    if l.fields == [] then l else Listing([t + l.fields[0]] + l.fields[1..], l.ending)
  }

  /** What an escape followed by `c` stands for, if anything. */
  predicate Escapable(m: Marks, c: char) {
    c == 'n' || m.Special(c)
  }

  function Meaning(c: char): char {
    if c == 'n' then '\n' else c
  }

  function Read(m: Marks, s: string, inQuotes: bool): (l: Listing)
    ensures l.fields == [] ==> l.ending != Clean
  {
    if s == "" then Listing([""], Clean)
    else if s[0] in m.escapes then
      if |s| == 1 then Listing([], CannotEndWithEscape)
      else if !Escapable(m, s[1]) then Listing([], UnknownEscape)
      else Prepend([Meaning(s[1])], Read(m, s[2..], inQuotes))
    else if s[0] in m.separators && !inQuotes then
      var rest := Read(m, s[1..], false);
      Listing([""] + rest.fields, rest.ending)
    else if s[0] in m.quotes && s[0] !in m.separators then Read(m, s[1..], !inQuotes)
    else Prepend([s[0]], Read(m, s[1..], inQuotes))
  }

  /** What a separator has still to return; `last` says that a separator character was just passed. */
  function Pending(m: Marks, s: string, last: bool): Listing {
    if s == "" && !last then Listing([], Clean) else Read(m, s, false)
  }

  /** A whole run of the iterator: nothing for an empty line. */
  function Tokens(m: Marks, line: string): Listing {
    Pending(m, line, false)
  }

  // ---------------------------------------------------------------------------------------------
  // When a line throws
  // ---------------------------------------------------------------------------------------------

  /** The first bad escape, found without regard to quotes and fields. */
  function EscapeFault(m: Marks, s: string): Ending {
    if s == "" then Clean
    else if s[0] !in m.escapes then EscapeFault(m, s[1..])
    else if |s| == 1 then CannotEndWithEscape
    else if Escapable(m, s[1]) then EscapeFault(m, s[2..])
    else UnknownEscape
  }

  /** A run throws exactly on a bad escape; quotes, even unclosed ones, never make it throw. */
  lemma {:induction false} ThrowsOnBadEscape(m: Marks, s: string, inQuotes: bool)
    ensures Read(m, s, inQuotes).ending == EscapeFault(m, s)
    decreases |s|
  {
    if s == "" {
    } else if s[0] in m.escapes {
      if |s| > 1 {
        ThrowsOnBadEscape(m, s[2..], inQuotes);
      }
    } else {
      ThrowsOnBadEscape(m, s[1..], inQuotes);
      ThrowsOnBadEscape(m, s[1..], !inQuotes);
    }
  }

  /** An escaped letter n is a line feed, an escaped mark stands for itself, nothing else may be escaped. */
  lemma EscapedCharacter(m: Marks, e: char, c: char, rest: string, inQuotes: bool)
    requires e in m.escapes
    ensures Read(m, [e, c] + rest, inQuotes) ==
      if c == 'n' then Prepend(['\U{A}'], Read(m, rest, inQuotes))
      else if c in m.escapes + m.separators + m.quotes then Prepend([c], Read(m, rest, inQuotes))
      else Listing([], UnknownEscape)
  {
    var s := [e, c] + rest;
    assert s[0] == e && s[1] == c && s[2..] == rest;
  }

  // ---------------------------------------------------------------------------------------------
  // Writing a line
  // ---------------------------------------------------------------------------------------------

  /** A field as it is to be written: on its own, or between quotes where separators need no escape. */
  datatype Cell = Bare(text: string) | Quoted(text: string)

  predicate MustEscape(m: Marks, quoted: bool, c: char) {
    c in m.escapes || c in m.quotes || (!quoted && c in m.separators)
  }

  function Escaped(m: Marks, e: char, quoted: bool, s: string): string {
    if s == "" then ""
    else (if MustEscape(m, quoted, s[0]) then [e, s[0]] else [s[0]]) + Escaped(m, e, quoted, s[1..])
  }

  function CellText(m: Marks, e: char, q: char, cell: Cell): string {
    match cell
    case Bare(text) => Escaped(m, e, false, text)
    case Quoted(text) => [q] + Escaped(m, e, true, text) + [q]
  }

  function Line(m: Marks, e: char, c: char, q: char, cells: seq<Cell>): string {
    if cells == [] then ""
    else if |cells| == 1 then CellText(m, e, q, cells[0])
    else CellText(m, e, q, cells[0]) + [c] + Line(m, e, c, q, cells[1..])
  }

  function Texts(cells: seq<Cell>): (r: seq<string>)
    ensures |r| == |cells|
    ensures forall i :: 0 <= i < |cells| ==> r[i] == cells[i].text
  {
    if cells == [] then [] else [cells[0].text] + Texts(cells[1..])
  }

  predicate QuoteUsable(m: Marks, q: char) {
    q in m.quotes && q !in m.escapes && q !in m.separators
  }

  /** The marks can be used for writing: each plays its own role when the separator reads it. */
  predicate Usable(m: Marks, e: char, c: char, q: char, cells: seq<Cell>) {
    && e in m.escapes
    && c in m.separators && c !in m.escapes
    && (QuoteUsable(m, q) || forall i :: 0 <= i < |cells| ==> cells[i].Bare?)
  }

  /** A field as it is read back: an escaped 'n' is a line feed. */
  function Seen(m: Marks, quoted: bool, s: string): (r: string)
    ensures |r| == |s|
  {
    if s == "" then ""
    else [if MustEscape(m, quoted, s[0]) then Meaning(s[0]) else s[0]] + Seen(m, quoted, s[1..])
  }

  function AllSeen(m: Marks, cells: seq<Cell>): (r: seq<string>)
    ensures |r| == |cells|
  {
    if cells == [] then [] else [Seen(m, cells[0].Quoted?, cells[0].text)] + AllSeen(m, cells[1..])
  }

  /** The field holds the letter n and n has to be escaped in it. */
  predicate EscapesN(m: Marks, cell: Cell) {
    'n' in cell.text && MustEscape(m, cell.Quoted?, 'n')
  }

  // ---------------------------------------------------------------------------------------------
  // The round trip
  // ---------------------------------------------------------------------------------------------

  lemma PrependTwice(a: string, b: string, l: Listing)
    ensures Prepend(a, Prepend(b, l)) == Prepend(a + b, l)
  {
    if l.fields != [] {
      assert a + (b + l.fields[0]) == a + b + l.fields[0];
    }
  }

  lemma PrependNothing(l: Listing)
    ensures Prepend("", l) == l
  {
    if l.fields != [] {
      assert "" + l.fields[0] == l.fields[0];
    }
  }

  lemma ReadOneEscaped(m: Marks, e: char, quoted: bool, c: char, more: string)
    requires e in m.escapes && MustEscape(m, quoted, c)
    ensures Read(m, [e, c] + more, quoted) == Prepend([Meaning(c)], Read(m, more, quoted))
  {
    assert ([e, c] + more)[2..] == more;
  }

  lemma ReadOnePlain(m: Marks, quoted: bool, c: char, more: string)
    requires !MustEscape(m, quoted, c)
    ensures Read(m, [c] + more, quoted) == Prepend([c], Read(m, more, quoted))
  {
    assert ([c] + more)[1..] == more;
  }

  lemma {:induction false} ReadEscaped(m: Marks, e: char, quoted: bool, s: string, rest: string)
    requires e in m.escapes
    ensures Read(m, Escaped(m, e, quoted, s) + rest, quoted) == Prepend(Seen(m, quoted, s), Read(m, rest, quoted))
  {
    hide Read, MustEscape, Prepend;
    var tail := Read(m, rest, quoted);
    if s == "" {
      assert "" + rest == rest;
      PrependNothing(tail);
    } else {
      var more := Escaped(m, e, quoted, s[1..]) + rest;
      ReadEscaped(m, e, quoted, s[1..], rest);
      var whole := Escaped(m, e, quoted, s) + rest;
      if MustEscape(m, quoted, s[0]) {
        assert whole == [e, s[0]] + more;
        ReadOneEscaped(m, e, quoted, s[0], more);
        PrependTwice([Meaning(s[0])], Seen(m, quoted, s[1..]), tail);
      } else {
        assert whole == [s[0]] + more;
        ReadOnePlain(m, quoted, s[0], more);
        PrependTwice([s[0]], Seen(m, quoted, s[1..]), tail);
      }
    }
  }

  lemma ReadCell(m: Marks, e: char, q: char, cell: Cell, rest: string)
    requires e in m.escapes && (cell.Quoted? ==> QuoteUsable(m, q))
    ensures Read(m, CellText(m, e, q, cell) + rest, false)
      == Prepend(Seen(m, cell.Quoted?, cell.text), Read(m, rest, false))
  {
    match cell {
      case Bare(text) =>
        ReadEscaped(m, e, false, text, rest);
      case Quoted(text) =>
        var body := Escaped(m, e, true, text);
        var closing := [q] + rest;
        var whole := [q] + body + [q] + rest;
        assert whole[1..] == body + closing;
        assert closing[1..] == rest;
        ReadEscaped(m, e, true, text, closing);
    }
  }

  lemma {:induction false} ReadLine(m: Marks, e: char, c: char, q: char, cells: seq<Cell>)
    requires cells != [] && Usable(m, e, c, q, cells)
    ensures Read(m, Line(m, e, c, q, cells), false) == Listing(AllSeen(m, cells), Clean)
  {
    hide Read, Prepend, CellText, Seen;
    var first := cells[0];
    var text := CellText(m, e, q, first);
    var seen := Seen(m, first.Quoted?, first.text);
    if |cells| == 1 {
      ReadCell(m, e, q, first, "");
      ReadAtEnd(m, seen, false);
      assert text + "" == text && cells[1..] == [];
    } else {
      var rest := Line(m, e, c, q, cells[1..]);
      ReadLine(m, e, c, q, cells[1..]);
      ReadCell(m, e, q, first, [c] + rest);
      assert text + [c] + rest == text + ([c] + rest);
      assert ([c] + rest)[1..] == rest;
      ReadByFirst(m, [c] + rest, false);
      PrependToEmpty(seen, AllSeen(m, cells[1..]), Clean);
    }
  }

  lemma {:induction false} SeenUnchanged(m: Marks, quoted: bool, s: string)
    ensures Seen(m, quoted, s) == s <==> !('n' in s && MustEscape(m, quoted, 'n'))
  {
    if s != "" {
      var seen := Seen(m, quoted, s);
      SeenUnchanged(m, quoted, s[1..]);
      assert s == [s[0]] + s[1..];
      assert seen == s <==> seen[0] == s[0] && seen[1..] == s[1..];
    }
  }

  lemma {:induction false} AllSeenUnchanged(m: Marks, cells: seq<Cell>)
    ensures AllSeen(m, cells) == Texts(cells) <==> forall i :: 0 <= i < |cells| ==> !EscapesN(m, cells[i])
  {
    if cells != [] {
      var seen, texts := AllSeen(m, cells), Texts(cells);
      AllSeenUnchanged(m, cells[1..]);
      SeenUnchanged(m, cells[0].Quoted?, cells[0].text);
      assert texts == [cells[0].text] + Texts(cells[1..]);
      assert seen == texts <==> seen[0] == texts[0] && seen[1..] == texts[1..];
      assert forall i :: 1 <= i < |cells| ==> cells[i] == cells[1..][i - 1];
    }
  }

  lemma LineEmpty(m: Marks, e: char, c: char, q: char, cells: seq<Cell>)
    ensures Line(m, e, c, q, cells) == "" <==> cells == [] || cells == [Bare("")]
  {
    if |cells| == 1 && cells[0].Bare? {
      assert Escaped(m, e, false, cells[0].text) == "" <==> cells[0].text == "";
    }
  }

  /**
   * Writing fields as a line and running the iterator over it gives the fields back. It fails for
   * exactly two reasons: the line of one bare empty field is empty and yields no token, and an
   * escaped letter n reads as a line feed.
   */
  lemma ListRoundTrip(m: Marks, e: char, c: char, q: char, cells: seq<Cell>)
    requires Usable(m, e, c, q, cells)
    ensures Tokens(m, Line(m, e, c, q, cells)) == Listing(Texts(cells), Clean)
      <==> cells != [Bare("")] && forall i :: 0 <= i < |cells| ==> !EscapesN(m, cells[i])
  {
    LineEmpty(m, e, c, q, cells);
    AllSeenUnchanged(m, cells);
    if cells != [] {
      ReadLine(m, e, c, q, cells);
    }
  }

  // ---------------------------------------------------------------------------------------------
  // The separator
  // ---------------------------------------------------------------------------------------------

  /** What reading does with the first character. */
  lemma ReadByFirst(m: Marks, s: string, inQuotes: bool)
    requires s != ""
    ensures var l := Read(m, s, inQuotes);
      if s[0] in m.escapes then
        |s| > 1 && Escapable(m, s[1]) ==> l == Prepend([Meaning(s[1])], Read(m, s[2..], inQuotes))
      else if s[0] in m.separators && !inQuotes then
        var rest := Read(m, s[1..], false); l == Listing([""] + rest.fields, rest.ending)
      else if s[0] in m.quotes && s[0] !in m.separators then l == Read(m, s[1..], !inQuotes)
      else l == Prepend([s[0]], Read(m, s[1..], inQuotes))
  {
  }

  lemma PrependToEmpty(t: string, fields: seq<string>, ending: Ending)
    ensures Prepend(t, Listing([""] + fields, ending)) == Listing([t] + fields, ending)
  {
    assert t + "" == t && ([""] + fields)[1..] == fields;
  }

  lemma NothingThrown(t: string, l: Listing)
    ensures l.fields == [] ==> Prepend(t, l) == l
  {
  }

  /** At the end of the line the field is what was gathered. */
  lemma ReadAtEnd(m: Marks, t: string, inQuotes: bool)
    ensures Prepend(t, Read(m, "", inQuotes)) == Listing([t], Clean)
    ensures Read(m, "", inQuotes) == Listing([""], Clean)
  {
    assert t + "" == t;
  }

  class EscapedListSeparator {
    const marks: Marks
    var last: bool

    constructor (marks: Marks)
      ensures this.marks == marks && !last
    {
      this.marks, last := marks, false;
    }

    method Reset()
      modifies this
      ensures !last
    {
      last := false;
    }

    /** Reads the character after an escape. The cursor is left on it. */
    method DoEscape(text: string, at: nat, tok: string) returns (fault: Ending, next: nat, grown: string)
      requires at < |text| && text[at] in marks.escapes
      ensures at < next <= |text|
      ensures fault.Clean? ==> next == at + 1 < |text| && Escapable(marks, text[next])
      ensures fault.Clean? ==> grown == tok + [Meaning(text[next])]
      ensures !fault.Clean? ==> forall q :: Read(marks, text[at..], q) == Listing([], fault)
    {
      next, grown, fault := at + 1, tok, Clean;
      if next == |text| {
        fault := CannotEndWithEscape;
      } else if text[next] == 'n' {
        grown := grown + "\n";
      } else if text[next] in marks.quotes {
        grown := grown + [text[next]];
      } else if text[next] in marks.separators {
        grown := grown + [text[next]];
      } else if text[next] in marks.escapes {
        grown := grown + [text[next]];
      } else {
        fault := UnknownEscape;
      }
    }

    /** One call: the next pending field, the end, or the exception. */
    method Next(text: string, at: nat) returns (status: Status, next: nat, tok: string)
      requires at <= |text|
      modifies this
      ensures at <= next <= |text|
      ensures status.Field? ==>
        var left := Pending(marks, text[next..], last);
        Pending(marks, text[at..], old(last)) == Listing([tok] + left.fields, left.ending)
      ensures status.Field? ==> at < next || (next == |text| && old(last) && !last)
      ensures status.Exhausted? ==>
        Pending(marks, text[at..], old(last)) == Listing([], Clean) && next == |text| && tok == ""
      ensures status.Thrown? ==>
        status.fault != Clean && Pending(marks, text[at..], old(last)) == Listing([], status.fault)
    {
      hide Read, Prepend;
      var inQuotes := false;
      next, tok := at, "";
      if next == |text| {
        if last {
          ReadAtEnd(marks, "", false);
          last := false;
          return Field, next, tok;
        }
        return Exhausted, next, tok;
      }
      last := false;
      ghost var all := Read(marks, text[at..], false);
      PrependNothing(all);
      while next < |text|
        invariant at <= next <= |text| && !last
        invariant all == Prepend(tok, Read(marks, text[next..], inQuotes))
      {
        ghost var s := text[next..];
        assert s[1..] == text[next + 1..];
        ReadByFirst(marks, s, inQuotes);
        if text[next] in marks.escapes {
          ghost var before, from := tok, next;
          NothingThrown(tok, Read(marks, s, inQuotes));
          var fault;
          fault, next, tok := DoEscape(text, next, tok);
          if fault != Clean {
            return Thrown(fault), next, tok;
          }
          assert s[2..] == text[next + 1..];
          PrependTwice(before, [Meaning(text[next])], Read(marks, s[2..], inQuotes));
        } else if text[next] in marks.separators {
          if !inQuotes {
            next := next + 1;
            last := true;
            ghost var rest := Read(marks, s[1..], false);
            PrependToEmpty(tok, rest.fields, rest.ending);
            return Field, next, tok;
          }
          PrependTwice(tok, [text[next]], Read(marks, s[1..], inQuotes));
          tok := tok + [text[next]];
        } else if text[next] in marks.quotes {
          inQuotes := !inQuotes;
        } else {
          PrependTwice(tok, [text[next]], Read(marks, s[1..], inQuotes));
          tok := tok + [text[next]];
        }
        next := next + 1;
      }
      assert text[next..] == "";
      ReadAtEnd(marks, tok, inQuotes);
      status := Field;
    }
  }
}
