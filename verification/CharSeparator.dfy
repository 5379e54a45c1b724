/**
 * The character separator of external/boost/token_functions.hpp and the declarative split that its
 * runs produce. One call returns one token and remembers, in `outputDone`, whether the field that
 * ends at the cursor has been returned already.
 */
module CharSeparators {

  datatype Kind = Kept | Dropped | Plain

  /** The constructor's arguments. The default constructor leaves both strings empty and sets the two switches. */
  datatype Rule = Rule(kept: string, dropped: string, useIspunct: bool, useIsspace: bool, keepEmpty: bool) {
    predicate IsKept(c: char) {
      if kept != "" then c in kept else useIspunct && IsPunct(c)
    }

    predicate IsDropped(c: char) {
      if dropped != "" then c in dropped else useIsspace && IsSpace(c)
    }

    /** A character in both classes is kept under the keep policy and dropped under the drop policy. */
    function KindOf(c: char): Kind {
      if IsKept(c) && (keepEmpty || !IsDropped(c)) then Kept
      else if IsDropped(c) then Dropped
      else Plain
    }
  }

  /** The classification of the C locale. */
  predicate IsSpace(c: char) {
    c == ' ' || 9 as char <= c <= 13 as char
  }

  predicate IsPunct(c: char) {
    '!' <= c <= '/' || ':' <= c <= '@' || '[' <= c <= '`' || '{' <= c <= '~'
  }

  // ---------------------------------------------------------------------------------------------
  // The declarative split
  // ---------------------------------------------------------------------------------------------

  /** The fields between delimiters, empty ones included, with each kept delimiter as a token between its two fields. */
  function Split(r: Rule, s: string): (tokens: seq<string>)
    ensures tokens != []
  {
    if s == "" then [""]
    else
      var rest := Split(r, s[1..]);
      match r.KindOf(s[0])
      case Kept => ["", [s[0]]] + rest
      case Dropped => [""] + rest
      case Plain => [[s[0]] + rest[0]] + rest[1..]
  }

  function NonEmpty(tokens: seq<string>): (r: seq<string>) {
    if tokens == [] then []
    else (if tokens[0] == "" then [] else [tokens[0]]) + NonEmpty(tokens[1..])
  }

  predicate AtBoundary(r: Rule, s: string) {
    s == "" || r.KindOf(s[0]) != Plain
  }

  /** What a separator with this flag has still to return when `s` is left to read. */
  function Pending(r: Rule, s: string, outputDone: bool): seq<string> {
    if !r.keepEmpty then NonEmpty(Split(r, s))
    else if outputDone && AtBoundary(r, s) then Split(r, s)[1..]
    else Split(r, s)
  }

  /** The tokens of a whole run. The iterator does not consult the separator on an empty text. */
  function Tokens(r: Rule, text: string, outputDone: bool): seq<string> {
    if text == "" then [] else Pending(r, text, outputDone)
  }

  function Concat(tokens: seq<string>): string {
    if tokens == [] then "" else tokens[0] + Concat(tokens[1..])
  }

  function Without(r: Rule, k: Kind, s: string): string {
    if s == "" then "" else (if r.KindOf(s[0]) == k then "" else [s[0]]) + Without(r, k, s[1..])
  }

  function CountOf(r: Rule, k: Kind, s: string): nat {
    if s == "" then 0 else (if r.KindOf(s[0]) == k then 1 else 0) + CountOf(r, k, s[1..])
  }

  predicate AllPlain(r: Rule, s: string) {
    forall i :: 0 <= i < |s| ==> r.KindOf(s[i]) == Plain
  }

  predicate AllDelimiters(r: Rule, s: string) {
    forall i :: 0 <= i < |s| ==> r.KindOf(s[i]) != Plain
  }

  // A text as fields separated by single delimiters, and the tokens such a text stands for.

  function Joined(fields: seq<string>, delimiters: string): string
    requires |fields| == |delimiters| + 1
  {
    if delimiters == "" then fields[0]
    else fields[0] + [delimiters[0]] + Joined(fields[1..], delimiters[1..])
  }

  function Woven(r: Rule, fields: seq<string>, delimiters: string): seq<string>
    requires |fields| == |delimiters| + 1
  {
    if delimiters == "" then fields
    else
      [fields[0]] + (if r.KindOf(delimiters[0]) == Kept then [[delimiters[0]]] else [])
      + Woven(r, fields[1..], delimiters[1..])
  }

  // ---------------------------------------------------------------------------------------------
  // Properties of the split
  // ---------------------------------------------------------------------------------------------

  lemma {:induction false} SplitPlainRun(r: Rule, t: string, s: string)
    requires AllPlain(r, t)
    ensures Split(r, t + s) == [t + Split(r, s)[0]] + Split(r, s)[1..]
  {
    var first := Split(r, s)[0];
    if t == "" {
      assert t + s == s && t + first == first;
    } else {
      assert (t + s)[1..] == t[1..] + s;
      SplitPlainRun(r, t[1..], s);
      assert [t[0]] + (t[1..] + first) == t + first;
    }
  }

  /** Every text has a reading as plain fields with single delimiters between them. */
  lemma {:induction false} EveryTextIsJoined(r: Rule, s: string) returns (fields: seq<string>, delimiters: string)
    ensures |fields| == |delimiters| + 1
    ensures forall i :: 0 <= i < |fields| ==> AllPlain(r, fields[i])
    ensures AllDelimiters(r, delimiters)
    ensures Joined(fields, delimiters) == s
  {
    if s == "" {
      fields, delimiters := [""], "";
    } else {
      fields, delimiters := EveryTextIsJoined(r, s[1..]);
      if r.KindOf(s[0]) == Plain {
        ghost var before := fields;
        fields := [[s[0]] + before[0]] + before[1..];
        assert fields[1..] == before[1..];
      } else {
        ghost var before, marks := fields, delimiters;
        fields, delimiters := [""] + before, [s[0]] + marks;
        assert fields[1..] == before && delimiters[1..] == marks;
      }
    }
  }

  /** The split recovers exactly the fields, in order, and the kept delimiters where they stood. */
  lemma {:induction false} SplitOfJoined(r: Rule, fields: seq<string>, delimiters: string)
    requires |fields| == |delimiters| + 1
    requires forall i :: 0 <= i < |fields| ==> AllPlain(r, fields[i])
    requires AllDelimiters(r, delimiters)
    ensures Split(r, Joined(fields, delimiters)) == Woven(r, fields, delimiters)
  {
    hide Split, Rule.KindOf;
    if delimiters == "" {
      SplitPlainRun(r, fields[0], "");
      assert Split(r, "") == [""] by { SplitNothing(r); }
      assert fields[0] + "" == fields[0];
    } else {
      var rest := Joined(fields[1..], delimiters[1..]);
      var tail := [delimiters[0]] + rest;
      SplitOfJoined(r, fields[1..], delimiters[1..]);
      SplitPlainRun(r, fields[0], tail);
      assert fields[0] + tail == fields[0] + [delimiters[0]] + rest;
      SplitAtDelimiter(r, delimiters[0], rest);
      assert fields[0] + "" == fields[0];
    }
  }

  lemma SplitNothing(r: Rule)
    ensures Split(r, "") == [""]
  {
  }

  lemma SplitAtDelimiter(r: Rule, c: char, rest: string)
    requires r.KindOf(c) != Plain
    ensures Split(r, [c] + rest) == [""] + ((if r.KindOf(c) == Kept then [[c]] else []) + Split(r, rest))
  {
    assert ([c] + rest)[1..] == rest;
  }

  /** One token for each dropped delimiter, two for each kept one, and one more. */
  lemma {:induction false} SplitCount(r: Rule, s: string)
    ensures |Split(r, s)| == CountOf(r, Dropped, s) + 2 * CountOf(r, Kept, s) + 1
  {
    if s != "" {
      SplitCount(r, s[1..]);
    }
  }

  lemma {:induction false} SplitConserves(r: Rule, s: string)
    ensures Concat(Split(r, s)) == Without(r, Dropped, s)
  {
    if s != "" {
      var rest := Split(r, s[1..]);
      SplitConserves(r, s[1..]);
      match r.KindOf(s[0]) {
        case Kept =>
          var two := [[s[0]]] + rest;
          assert (["", [s[0]]] + rest)[1..] == two;
          assert two[1..] == rest;
        case Dropped =>
          assert ([""] + rest)[1..] == rest;
        case Plain =>
          assert ([[s[0]] + rest[0]] + rest[1..])[1..] == rest[1..];
          assert ([s[0]] + rest[0]) + Concat(rest[1..]) == [s[0]] + (rest[0] + Concat(rest[1..]));
      }
    }
  }

  lemma {:induction false} NonEmptyKeepsText(tokens: seq<string>)
    ensures Concat(NonEmpty(tokens)) == Concat(tokens)
    ensures forall i :: 0 <= i < |NonEmpty(tokens)| ==> NonEmpty(tokens)[i] != ""
  {
    if tokens != [] {
      NonEmptyKeepsText(tokens[1..]);
      if tokens[0] == "" {
        assert "" + Concat(tokens[1..]) == Concat(tokens[1..]);
        assert NonEmpty(tokens) == NonEmpty(tokens[1..]);
      } else {
        assert ([tokens[0]] + NonEmpty(tokens[1..]))[1..] == NonEmpty(tokens[1..]);
      }
    }
  }

  /** The drop policy returns non-empty tokens which together are the text without its dropped delimiters. */
  lemma DropRun(r: Rule, text: string, outputDone: bool)
    requires !r.keepEmpty
    ensures forall i :: 0 <= i < |Tokens(r, text, outputDone)| ==> Tokens(r, text, outputDone)[i] != ""
    ensures Concat(Tokens(r, text, outputDone)) == Without(r, Dropped, text)
  {
    if text != "" {
      SplitConserves(r, text);
      NonEmptyKeepsText(Split(r, text));
    }
  }

  /** From a clear flag the keep policy returns the split; a set flag costs it the empty first field, if there is one. */
  lemma KeepRun(r: Rule, text: string, outputDone: bool)
    requires r.keepEmpty && text != ""
    ensures !outputDone ==> Tokens(r, text, outputDone) == Split(r, text)
    ensures |Tokens(r, text, outputDone)|
      == CountOf(r, Dropped, text) + 2 * CountOf(r, Kept, text)
         + (if outputDone && r.KindOf(text[0]) != Plain then 0 else 1)
    ensures Concat(Tokens(r, text, outputDone)) == Without(r, Dropped, text)
  {
    SplitCount(r, text);
    SplitConserves(r, text);
  }

  // ---------------------------------------------------------------------------------------------
  // The separator
  // ---------------------------------------------------------------------------------------------

  lemma {:induction false} NonEmptyAfter(first: string, rest: seq<string>)
    ensures NonEmpty([first] + rest) == (if first == "" then [] else [first]) + NonEmpty(rest)
  {
    assert ([first] + rest)[1..] == rest;
  }

  /** Skipping one dropped delimiter under the drop policy loses no token. */
  lemma PendingAfterDropped(r: Rule, s: string, outputDone: bool)
    requires !r.keepEmpty && s != "" && r.KindOf(s[0]) == Dropped
    ensures Pending(r, s, outputDone) == Pending(r, s[1..], outputDone)
  {
    NonEmptyAfter("", Split(r, s[1..]));
  }

  /** A kept delimiter under the drop policy is the next token. */
  lemma PendingAtKept(r: Rule, s: string, outputDone: bool)
    requires !r.keepEmpty && s != "" && r.KindOf(s[0]) == Kept
    ensures Pending(r, s, outputDone) == [[s[0]]] + Pending(r, s[1..], outputDone)
  {
    var rest := Split(r, s[1..]);
    assert ["", [s[0]]] + rest == [""] + ([[s[0]]] + rest);
    NonEmptyAfter("", [[s[0]]] + rest);
    NonEmptyAfter([s[0]], rest);
  }

  /** A maximal plain run is one token of the split, and what follows it starts at a boundary. */
  lemma SplitAtField(r: Rule, s: string, n: nat)
    requires n <= |s| && AllPlain(r, s[..n]) && AtBoundary(r, s[n..])
    ensures Split(r, s) == [s[..n]] + Split(r, s[n..])[1..]
    ensures Split(r, s[n..])[0] == ""
  {
    assert s == s[..n] + s[n..];
    SplitPlainRun(r, s[..n], s[n..]);
    assert s[..n] + "" == s[..n];
  }

  lemma PendingAtField(r: Rule, s: string, n: nat, outputDone: bool)
    requires 0 < n <= |s| && AllPlain(r, s[..n]) && AtBoundary(r, s[n..])
    ensures r.keepEmpty ==> Pending(r, s, outputDone) == [s[..n]] + Pending(r, s[n..], true)
    ensures !r.keepEmpty ==> Pending(r, s, outputDone) == [s[..n]] + Pending(r, s[n..], outputDone)
  {
    SplitAtField(r, s, n);
    assert s[..n][0] == s[0];
    var after := Split(r, s[n..]);
    NonEmptyAfter(s[..n], after[1..]);
    assert after == [""] + after[1..];
    NonEmptyAfter("", after[1..]);
  }

  /** Under the keep policy, with the field before a dropped delimiter returned, the field after it is next. */
  lemma PendingPastDropped(r: Rule, s: string, n: nat)
    requires r.keepEmpty && 1 <= n <= |s| && r.KindOf(s[0]) == Dropped
    requires AllPlain(r, s[1..n]) && AtBoundary(r, s[n..])
    ensures Pending(r, s, true) == [s[1..n]] + Pending(r, s[n..], true)
  {
    var rest := s[1..];
    assert rest[..n - 1] == s[1..n] && rest[n - 1..] == s[n..];
    SplitAtField(r, rest, n - 1);
  }

  /** Under the keep policy a kept delimiter follows the field it ends, and a new field starts after it. */
  lemma PendingAroundKept(r: Rule, s: string)
    requires r.keepEmpty && s != "" && r.KindOf(s[0]) == Kept
    ensures Pending(r, s, false) == [""] + Pending(r, s, true)
    ensures Pending(r, s, true) == [[s[0]]] + Pending(r, s[1..], false)
  {
    assert ["", [s[0]]] == [""] + [[s[0]]];
  }

  lemma PendingBeforeDropped(r: Rule, s: string)
    requires r.keepEmpty && s != "" && r.KindOf(s[0]) == Dropped
    ensures Pending(r, s, false) == [""] + Pending(r, s, true)
  {
  }

  lemma PendingNothing(r: Rule, outputDone: bool)
    requires !r.keepEmpty
    ensures Pending(r, "", outputDone) == []
  {
    NonEmptyAfter("", []);
    assert [""] + [] == [""];
  }

  lemma PendingAtEnd(r: Rule)
    requires r.keepEmpty
    ensures Pending(r, "", false) == [""] && Pending(r, "", true) == []
  {
  }

  class CharSeparator {
    const rule: Rule
    var outputDone: bool

    constructor (rule: Rule, outputDone: bool)
      ensures this.rule == rule && this.outputDone == outputDone
    {
      this.rule, this.outputDone := rule, outputDone;
    }

    /** `reset()` does nothing: a set flag survives it. */
    method Reset()
    {
    }

    /** The loop that appends plain characters. With `appends` false only the cursor moves. */
    method TakePlain(text: string, start: nat, tok: string, appends: bool) returns (next: nat, grown: string)
      requires start <= |text|
      ensures start <= next <= |text|
      ensures AllPlain(rule, text[start..next]) && AtBoundary(rule, text[next..])
      ensures grown == if appends then tok + text[start..next] else tok
    {
      next, grown := start, tok;
      while next < |text| && !rule.IsDropped(text[next]) && !rule.IsKept(text[next])
        invariant start <= next <= |text|
        invariant AllPlain(rule, text[start..next])
        invariant grown == if appends then tok + text[start..next] else tok
      {
        if appends {
          grown := grown + [text[next]];
        }
        assert text[start..next + 1] == text[start..next] + [text[next]];
        next := next + 1;
      }
    }

    method SkipDropped(text: string, start: nat) returns (next: nat)
      requires start <= |text| && !rule.keepEmpty
      ensures start <= next <= |text|
      ensures next < |text| ==> rule.KindOf(text[next]) != Dropped
      ensures Pending(rule, text[next..], outputDone) == Pending(rule, text[start..], outputDone)
    {
      next := start;
      while next < |text| && rule.IsDropped(text[next])
        invariant start <= next <= |text|
        invariant Pending(rule, text[next..], outputDone) == Pending(rule, text[start..], outputDone)
      {
        PendingAfterDropped(rule, text[next..], outputDone);
        assert text[next..][1..] == text[next + 1..];
        next := next + 1;
      }
    }

    /**
     * One call. `appends` selects between the two token-building strategies: growing the token one
     * character at a time, or assigning it the range that was read. Each returned token is the first
     * of those still pending, whichever strategy builds it.
     */
    method Next(text: string, at: nat, previous: string, appends: bool)
      returns (more: bool, next: nat, tok: string)
      requires at <= |text|
      modifies this
      ensures at <= next <= |text|
      ensures more ==> Pending(rule, text[at..], old(outputDone)) == [tok] + Pending(rule, text[next..], outputDone)
      ensures more && rule.keepEmpty ==>
        2 * (|text| - next) + (if outputDone then 0 else 1) < 2 * (|text| - at) + (if old(outputDone) then 0 else 1)
      ensures more && !rule.keepEmpty ==> at < next && outputDone == old(outputDone)
      ensures !more ==> Pending(rule, text[at..], old(outputDone)) == [] && next == |text|
      ensures !more ==> outputDone == old(outputDone) && tok == if appends then "" else previous
    {
      if rule.keepEmpty {
        more, next, tok := NextKeeping(text, at, previous, appends);
      } else {
        more, next, tok := NextDropping(text, at, previous, appends);
      }
    }

    method NextDropping(text: string, at: nat, previous: string, appends: bool)
      returns (more: bool, next: nat, tok: string)
      requires at <= |text| && !rule.keepEmpty
      ensures at <= next <= |text|
      ensures more ==> at < next
      ensures more ==> Pending(rule, text[at..], outputDone) == [tok] + Pending(rule, text[next..], outputDone)
      ensures !more ==> Pending(rule, text[at..], outputDone) == [] && next == |text|
      ensures !more ==> tok == if appends then "" else previous
    {
      hide Pending, Split, NonEmpty;
      tok := if appends then "" else previous;
      next := SkipDropped(text, at);
      var start := next;
      ghost var s := text[start..];
      if next == |text| {
        PendingNothing(rule, outputDone);
        assert s == "";
        return false, next, tok;
      }
      if rule.IsKept(text[next]) {
        if appends {
          tok := tok + [text[next]];
        }
        PendingAtKept(rule, s, outputDone);
        assert s[1..] == text[next + 1..] && text[start..next + 1] == [s[0]];
        next := next + 1;
      } else {
        next, tok := TakePlain(text, next, tok, appends);
        ghost var n := next - start;
        assert s[..n] == text[start..next] && s[n..] == text[next..];
        PendingAtField(rule, s, n, outputDone);
      }
      if !appends {
        tok := text[start..next];
      }
      assert tok == text[start..next];
      more := true;
    }

    method NextKeeping(text: string, at: nat, previous: string, appends: bool)
      returns (more: bool, next: nat, tok: string)
      requires at <= |text| && rule.keepEmpty
      modifies this
      ensures at <= next <= |text|
      ensures more ==>
        2 * (|text| - next) + (if outputDone then 0 else 1) < 2 * (|text| - at) + (if old(outputDone) then 0 else 1)
      ensures more ==> Pending(rule, text[at..], old(outputDone)) == [tok] + Pending(rule, text[next..], outputDone)
      ensures !more ==> Pending(rule, text[at..], old(outputDone)) == [] && next == |text|
      ensures !more ==> outputDone == old(outputDone) && tok == if appends then "" else previous
    {
      hide Pending, Split;
      tok := if appends then "" else previous;
      next := at;
      var start := next;
      ghost var s := text[at..];
      if next == |text| {
        PendingAtEnd(rule);
        assert s == "" && text[next..] == "";
        if outputDone {
          return false, next, tok;
        }
        outputDone := true;
        if !appends {
          tok := "";
        }
        return true, next, tok;
      }
      assert text[at..at] == "";
      if rule.IsKept(text[next]) {
        PendingAroundKept(rule, s);
        if !outputDone {
          outputDone := true;
        } else {
          if appends {
            tok := tok + [text[next]];
          }
          assert s[1..] == text[next + 1..] && text[start..next + 1] == [s[0]];
          next := next + 1;
          outputDone := false;
        }
      } else if !outputDone && rule.IsDropped(text[next]) {
        PendingBeforeDropped(rule, s);
        outputDone := true;
      } else {
        if rule.IsDropped(text[next]) {
          next := next + 1;
          start := next;
        }
        next, tok := TakePlain(text, next, tok, appends);
        ghost var n := next - at;
        assert s[n..] == text[next..];
        if start == at {
          assert s[..n] == text[start..next];
          PendingAtField(rule, s, n, outputDone);
        } else {
          assert s[1..n] == text[start..next];
          PendingPastDropped(rule, s, n);
        }
        outputDone := true;
      }
      if !appends {
        tok := text[start..next];
      }
      assert tok == text[start..next];
      more := true;
    }
  }
}
