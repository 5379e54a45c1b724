/**
 * The token iterator of external/boost/token_iterator.hpp, which drives a separator over a range,
 * and the traversal from `begin()` to `end()` of external/boost/tokenizer.hpp.
 */
module TokenIterators {
  import opened CharSeparators
  import EscapedLists

  type Listing = EscapedLists.Listing
  type Ending = EscapedLists.Ending

  /** The iterator's separator. A character separator also carries the strategy its iterator category selects. */
  datatype Separator =
    | ByCharacters(chars: CharSeparator, appends: bool)
    | ByEscapedList(list: EscapedLists.EscapedListSeparator)
  {
    function Object(): object {
      match this
      case ByCharacters(c, _) => c
      case ByEscapedList(l) => l
    }
  }

  /** What the separator still returns from `at` on. */
  ghost function Left(f: Separator, text: string, at: nat): Listing
    requires at <= |text|
    reads f.Object()
  {
    match f
    case ByCharacters(c, _) => EscapedLists.Listing(Pending(c.rule, text[at..], c.outputDone), EscapedLists.Clean)
    case ByEscapedList(l) => EscapedLists.Pending(l.marks, text[at..], l.last)
  }

  /** The tokens of a whole traversal with a separator in this state, and how it ends. */
  ghost function Run(f: Separator, text: string): Listing
    reads f.Object()
  {
    match f
    case ByCharacters(c, _) => EscapedLists.Listing(Tokens(c.rule, text, c.outputDone), EscapedLists.Clean)
    case ByEscapedList(l) => EscapedLists.Tokens(l.marks, text)
  }

  method Copy(f: Separator) returns (g: Separator)
    ensures fresh(g.Object())
    ensures forall text :: Run(g, text) == Run(f, text)
    ensures g.ByCharacters? == f.ByCharacters?
    ensures f.ByCharacters? ==>
      g.chars.rule == f.chars.rule && g.chars.outputDone == f.chars.outputDone && g.appends == f.appends
    ensures f.ByEscapedList? ==> g.list.marks == f.list.marks && g.list.last == f.list.last
  {
    match f {
      case ByCharacters(c, appends) =>
        var copy := new CharSeparator(c.rule, c.outputDone);
        g := ByCharacters(copy, appends);
      case ByEscapedList(l) =>
        var copy := new EscapedLists.EscapedListSeparator(l.marks);
        copy.last := l.last;
        g := ByEscapedList(copy);
    }
  }

  class TokenIterator {
    const text: string
    const f: Separator
    var begin: nat
    var valid: bool
    var tok: string

    ghost predicate Valid()
      reads this
    {
      begin <= |text| && f.Object() != this
    }

    /** The current token, if there is one, and all that increments will bring. */
    ghost function Remaining(): Listing
      requires Valid()
      reads this, f.Object()
    {
      if !valid then EscapedLists.Listing([], EscapedLists.Clean)
      else
        var left := Left(f, text, begin);
        EscapedLists.Listing([tok] + left.fields, left.ending)
    }

    /** Takes over a copy of the separator. `Initialize` is the second half of the constructor. */
    constructor (f: Separator, text: string, first: nat)
      ensures this.f == f && this.text == text && begin == first && !valid && tok == ""
    {
      this.f, this.text, begin, valid, tok := f, text, first, false, "";
    }

    /** Two iterators that still have a token are equal when they stand at the same place. */
    predicate Equals(other: TokenIterator)
      reads this, other
    {
      if valid && other.valid then begin == other.begin && text == other.text else valid == other.valid
    }

    /** One call of the separator on the iterator's own cursor and token. */
    method Call() returns (more: bool, fault: Ending)
      requires Valid()
      modifies this, f.Object()
      ensures Valid() && valid == old(valid)
      ensures !fault.Clean? ==> old(Left(f, text, begin)) == EscapedLists.Listing([], fault)
      ensures fault.Clean? && more ==>
        var left := Left(f, text, begin);
        old(Left(f, text, begin)) == EscapedLists.Listing([tok] + left.fields, left.ending)
      ensures fault.Clean? && !more ==> old(Left(f, text, begin)) == EscapedLists.Listing([], EscapedLists.Clean)
    {
      fault := EscapedLists.Clean;
      match f {
        case ByCharacters(c, appends) =>
          var next, grown;
          more, next, grown := c.Next(text, begin, tok, appends);
          begin, tok := next, grown;
        case ByEscapedList(l) =>
          var status, next, grown := l.Next(text, begin);
          begin, tok := next, grown;
          more := status.Field?;
          if status.Thrown? {
            fault := status.fault;
          }
      }
    }

    /** Afterwards the whole run lies ahead, the first token current; a fault is one that no token precedes. */
    method Initialize() returns (fault: Ending)
      requires Valid() && !valid
      modifies this, f.Object()
      ensures Valid()
      ensures old(begin) == |text| ==> fault.Clean? && !valid
      ensures fault.Clean? ==> Remaining() == old(Run(f, text[begin..]))
      ensures !fault.Clean? ==> old(Run(f, text[begin..])) == EscapedLists.Listing([], fault)
    {
      match f {
        case ByCharacters(c, _) => c.Reset();
        case ByEscapedList(l) => l.Reset();
      }
      fault := EscapedLists.Clean;
      if begin != |text| {
        var more;
        more, fault := Call();
        if fault.Clean? {
          valid := more;
        }
      }
    }

    /** Drops the current token. */
    method Increment() returns (fault: Ending)
      requires Valid() && valid
      modifies this, f.Object()
      ensures Valid()
      ensures fault.Clean? ==>
        Remaining() == EscapedLists.Listing(old(Remaining()).fields[1..], old(Remaining()).ending)
      ensures !fault.Clean? ==> old(Remaining()) == EscapedLists.Listing([old(tok)], fault)
    {
      ghost var left := Left(f, text, begin);
      assert ([tok] + left.fields)[1..] == left.fields;
      var more;
      more, fault := Call();
      if fault.Clean? {
        valid := more;
      }
    }
  }

  /** The traversal `for (i = t.begin(); i != t.end(); ++i)`: the tokens it visits, and the exception it ends with. */
  method Traverse(f: Separator, text: string) returns (tokens: seq<string>, ending: Ending)
    ensures EscapedLists.Listing(tokens, ending) == Run(f, text)
  {
    var own := Copy(f);
    var i := new TokenIterator(own, text, 0);
    assert text[0..] == text;
    ending := i.Initialize();
    if !ending.Clean? {
      return [], ending;
    }
    var other := Copy(f);
    var end := new TokenIterator(other, text, |text|);
    var _ := end.Initialize();
    tokens, ending := VisitAll(i, end);
  }

  /** The loop: what the iterator still has is visited in order. */
  method VisitAll(i: TokenIterator, end: TokenIterator) returns (tokens: seq<string>, ending: Ending)
    requires i.Valid() && !end.valid && end != i && end != i.f.Object()
    modifies i, i.f.Object()
    ensures EscapedLists.Listing(tokens, ending) == old(i.Remaining())
  {
    hide Left;
    tokens, ending := [], EscapedLists.Clean;
    ghost var all := i.Remaining();
    while !i.Equals(end)
      invariant i.Valid() && !end.valid && ending.Clean?
      invariant all == EscapedLists.Listing(tokens + i.Remaining().fields, i.Remaining().ending)
      decreases |i.Remaining().fields|
    {
      ghost var ahead := i.Remaining();
      OneVisited(tokens, ahead.fields);
      tokens := tokens + [i.tok];
      ending := i.Increment();
      if !ending.Clean? {
        return;
      }
    }
    assert tokens + [] == tokens;
  }

  lemma OneVisited(tokens: seq<string>, ahead: seq<string>)
    requires ahead != []
    ensures tokens + ahead == (tokens + [ahead[0]]) + ahead[1..]
    ensures |ahead| == 1 ==> tokens + ahead == tokens + [ahead[0]]
  {
  }
}
