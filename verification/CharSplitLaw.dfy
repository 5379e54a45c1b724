/** What the character separator does, in terms of its constructor's arguments: fields joined by
    delimiter characters come back as they were, by plain membership in the argument strings. */
module CharSplitLaw {
  import opened CharSeparators

  const WHITE_SPACE: string := " \t\n\U{0B}\U{0C}\r"
  const PUNCTUATION: string := "!\"#$%&'()*+,-./:;<=>?@[\\]^_`{|}~"

  lemma WhiteSpaceListed(c: char)
    ensures IsSpace(c) <==> c in WHITE_SPACE
  {
  }

  lemma PunctuationListed(c: char)
    ensures IsPunct(c) <==> c in PUNCTUATION
  {
  }

  /** The two constructors. */
  function WithDelimiters(dropped: string, kept: string, keepEmpty: bool): Rule {
    Rule(kept, dropped, false, false, keepEmpty)
  }

  function ByDefault(): Rule {
    Rule("", "", true, true, false)
  }

  /** No character of the field is a delimiter. */
  predicate Free(field: string, dropped: string, kept: string) {
    forall i :: 0 <= i < |field| ==> field[i] !in dropped && field[i] !in kept
  }

  predicate AllFree(fields: seq<string>, dropped: string, kept: string) {
    forall i :: 0 <= i < |fields| ==> Free(fields[i], dropped, kept)
  }

  predicate AllIn(delimiters: string, dropped: string, kept: string) {
    forall i :: 0 <= i < |delimiters| ==> delimiters[i] in dropped || delimiters[i] in kept
  }

  /** With empty fields kept: every field, and between two fields their delimiter if it is a kept
      one, even one that is to be dropped as well. */
  function KeepingTokens(fields: seq<string>, delimiters: string, kept: string): seq<string>
    requires |fields| == |delimiters| + 1
  {
    if delimiters == "" then [fields[0]]
    else
      [fields[0]] + (if delimiters[0] in kept then [[delimiters[0]]] else [])
      + KeepingTokens(fields[1..], delimiters[1..], kept)
  }

  /** With empty fields dropped: every field that is not empty, and between two fields their
      delimiter if it is a kept one and not to be dropped as well. */
  function DroppingTokens(fields: seq<string>, delimiters: string, dropped: string, kept: string): seq<string>
    requires |fields| == |delimiters| + 1
  {
    var field := if fields[0] == "" then [] else [fields[0]];
    if delimiters == "" then field
    else
      field + (if delimiters[0] in kept && delimiters[0] !in dropped then [[delimiters[0]]] else [])
      + DroppingTokens(fields[1..], delimiters[1..], dropped, kept)
  }

  /** The rule's classes are membership in these strings. */
  ghost predicate Classifies(r: Rule, dropped: string, kept: string) {
    forall c :: (r.IsDropped(c) <==> c in dropped) && (r.IsKept(c) <==> c in kept)
  }

  lemma DelimitersClassify(dropped: string, kept: string, keepEmpty: bool)
    ensures Classifies(WithDelimiters(dropped, kept, keepEmpty), dropped, kept)
  {
  }

  lemma DefaultClassifies()
    ensures Classifies(ByDefault(), WHITE_SPACE, PUNCTUATION)
  {
    hide IsSpace, IsPunct;
    forall c ensures (ByDefault().IsDropped(c) <==> c in WHITE_SPACE) && (ByDefault().IsKept(c) <==> c in PUNCTUATION) {
      WhiteSpaceListed(c);
      PunctuationListed(c);
    }
  }

  lemma FieldsArePlain(r: Rule, fields: seq<string>, delimiters: string, dropped: string, kept: string)
    requires Classifies(r, dropped, kept) && AllFree(fields, dropped, kept) && AllIn(delimiters, dropped, kept)
    ensures forall i :: 0 <= i < |fields| ==> AllPlain(r, fields[i])
    ensures AllDelimiters(r, delimiters)
  {
    hide Rule.IsDropped, Rule.IsKept;
    forall i | 0 <= i < |fields| ensures AllPlain(r, fields[i]) {
      assert Free(fields[i], dropped, kept);
      forall j | 0 <= j < |fields[i]| ensures r.KindOf(fields[i][j]) == Plain {
        assert !r.IsDropped(fields[i][j]) && !r.IsKept(fields[i][j]);
      }
    }
    forall i | 0 <= i < |delimiters| ensures r.KindOf(delimiters[i]) != Plain {
      assert r.IsDropped(delimiters[i]) || r.IsKept(delimiters[i]);
    }
  }

  lemma {:induction false} WovenKeeping(r: Rule, fields: seq<string>, delimiters: string, dropped: string, kept: string)
    requires |fields| == |delimiters| + 1 && r.keepEmpty && Classifies(r, dropped, kept)
    ensures Woven(r, fields, delimiters) == KeepingTokens(fields, delimiters, kept)
  {
    hide Rule.IsDropped, Rule.IsKept;
    if delimiters != "" {
      assert r.IsKept(delimiters[0]) <==> delimiters[0] in kept;
      WovenKeeping(r, fields[1..], delimiters[1..], dropped, kept);
    }
  }

  lemma {:induction false} NonEmptyOfTwo(a: seq<string>, b: seq<string>)
    ensures NonEmpty(a + b) == NonEmpty(a) + NonEmpty(b)
  {
    if a == [] {
      assert a + b == b;
    } else {
      assert (a + b)[1..] == a[1..] + b;
      NonEmptyOfTwo(a[1..], b);
    }
  }

  lemma NonEmptyOne(field: string)
    ensures NonEmpty([field]) == if field == "" then [] else [field]
  {
    assert [field][1..] == [];
  }

  lemma {:induction false} WovenDropping(r: Rule, fields: seq<string>, delimiters: string, dropped: string, kept: string)
    requires |fields| == |delimiters| + 1 && !r.keepEmpty && Classifies(r, dropped, kept)
    ensures NonEmpty(Woven(r, fields, delimiters)) == DroppingTokens(fields, delimiters, dropped, kept)
  {
    hide Rule.IsDropped, Rule.IsKept, NonEmpty;
    NonEmptyOne(fields[0]);
    if delimiters == "" {
      assert fields == [fields[0]];
    } else {
      var c := delimiters[0];
      assert (r.IsKept(c) <==> c in kept) && (r.IsDropped(c) <==> c in dropped);
      var mark := if r.KindOf(c) == Kept then [[c]] else [];
      var rest := Woven(r, fields[1..], delimiters[1..]);
      WovenDropping(r, fields[1..], delimiters[1..], dropped, kept);
      NonEmptyOfTwo([fields[0]] + mark, rest);
      NonEmptyOfTwo([fields[0]], mark);
      NonEmptyMark(r, c);
    }
  }

  lemma NonEmptyMark(r: Rule, c: char)
    ensures var mark := if r.KindOf(c) == Kept then [[c]] else []; NonEmpty(mark) == mark
  {
    assert [[c]][1..] == [];
  }

  /** The tokens of any text, split by the rule's classes as plain strings. */
  lemma SplitLaw(r: Rule, fields: seq<string>, delimiters: string, dropped: string, kept: string)
    requires |fields| == |delimiters| + 1 && Classifies(r, dropped, kept)
    requires AllFree(fields, dropped, kept) && AllIn(delimiters, dropped, kept)
    ensures Tokens(r, Joined(fields, delimiters), false)
         == if Joined(fields, delimiters) == "" then []
            else if r.keepEmpty then KeepingTokens(fields, delimiters, kept) else DroppingTokens(fields, delimiters, dropped, kept)
  {
    hide Split, Woven, NonEmpty, Classifies;
    FieldsArePlain(r, fields, delimiters, dropped, kept);
    SplitOfJoined(r, fields, delimiters);
    if r.keepEmpty {
      WovenKeeping(r, fields, delimiters, dropped, kept);
    } else {
      WovenDropping(r, fields, delimiters, dropped, kept);
    }
  }

  /** The separator with explicit delimiters. */
  lemma DelimiterLaw(fields: seq<string>, delimiters: string, dropped: string, kept: string, keepEmpty: bool)
    requires |fields| == |delimiters| + 1
    requires AllFree(fields, dropped, kept) && AllIn(delimiters, dropped, kept)
    ensures Tokens(WithDelimiters(dropped, kept, keepEmpty), Joined(fields, delimiters), false)
         == if Joined(fields, delimiters) == "" then []
            else if keepEmpty then KeepingTokens(fields, delimiters, kept) else DroppingTokens(fields, delimiters, dropped, kept)
  {
    DelimitersClassify(dropped, kept, keepEmpty);
    SplitLaw(WithDelimiters(dropped, kept, keepEmpty), fields, delimiters, dropped, kept);
  }

  /** The default separator: white space is dropped, punctuation kept. */
  lemma DefaultLaw(fields: seq<string>, delimiters: string)
    requires |fields| == |delimiters| + 1
    requires AllFree(fields, WHITE_SPACE, PUNCTUATION) && AllIn(delimiters, WHITE_SPACE, PUNCTUATION)
    ensures Tokens(ByDefault(), Joined(fields, delimiters), false)
         == if Joined(fields, delimiters) == "" then []
            else DroppingTokens(fields, delimiters, WHITE_SPACE, PUNCTUATION)
  {
    DefaultClassifies();
    SplitLaw(ByDefault(), fields, delimiters, WHITE_SPACE, PUNCTUATION);
  }

  /** Every text is of that form. */
  lemma {:induction false} EveryTextSplits(s: string, dropped: string, kept: string) returns (fields: seq<string>, delimiters: string)
    ensures |fields| == |delimiters| + 1 && Joined(fields, delimiters) == s
    ensures AllFree(fields, dropped, kept) && AllIn(delimiters, dropped, kept)
  {
    fields, delimiters := EveryTextIsJoined(WithDelimiters(dropped, kept, false), s);
    DelimitersClassify(dropped, kept, false);
    var r := WithDelimiters(dropped, kept, false);
    forall i | 0 <= i < |fields| ensures Free(fields[i], dropped, kept) {
      assert AllPlain(r, fields[i]);
    }
  }
}
