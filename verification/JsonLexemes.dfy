/** What readToken recognizes, by the text of the token alone.

    `KindOf` is a lexical grammar in literals: punctuation, the literal names, numbers after section
    6 of RFC 8259 (leading zeros and missing digits allowed), strings after its section 7, and
    comments.  Every token that the readers produce has the kind its text has there, and ends where
    the grammar says. */
module JsonLexemes {
  import opened JsonValue
  import opened JsonNumber
  import opened JsonString
  import opened JsonScanner
  import opened JsonParser
  import opened JsonTokenStream

  const DIGITS: string := "0123456789"

  predicate AllOf(s: string, allowed: string) { forall i :: 0 <= i < |s| ==> s[i] in allowed }

  lemma DigitListed(c: char)
    ensures IsDigit(c) <==> c in DIGITS
  {
  }

  lemma SpaceListed(c: char)
    ensures IsSpace(c) <==> c in " \t\r\n"
  {
  }

  // ----- strings -------------------------------------------------------------------------

  /** Characters without the quote, a backslash taking any character with it. */
  predicate Inside(s: string, quote: char)
    decreases |s|
  {
    s == "" || if s[0] == BACKSLASH then |s| >= 2 && Inside(s[2..], quote) else s[0] != quote && Inside(s[1..], quote)
  }

  predicate QuotedBy(t: string, quote: char) {
    |t| >= 2 && t[0] == quote && t[|t| - 1] == quote && Inside(t[1..|t| - 1], quote)
  }

  predicate IsStringText(f: Features, t: string) {
    QuotedBy(t, '"') || (f.ours && f.allowSingleQuotes && QuotedBy(t, '\''))
  }

  lemma {:induction false} ScanMeaning(doc: string, p: nat, quote: char)
    requires p <= |doc| && quote != BACKSLASH
    ensures var r := ScanString(doc, p, quote);
      r.ok ==> doc[r.next - 1] == quote && Inside(doc[p..r.next - 1], quote)
    decreases |doc| - p
  {
    if p < |doc| {
      if doc[p] == BACKSLASH {
        var q := if p + 2 <= |doc| then p + 2 else p + 1;
        ScanMeaning(doc, q, quote);
        var r := ScanString(doc, q, quote);
        if r.ok {
          var s := doc[p..r.next - 1];
          assert p + 2 <= |doc|;
          assert s[2..] == doc[p + 2..r.next - 1] && s[0] == doc[p];
        }
      } else if doc[p] != quote {
        ScanMeaning(doc, p + 1, quote);
        var r := ScanString(doc, p + 1, quote);
        if r.ok {
          var s := doc[p..r.next - 1];
          assert s[1..] == doc[p + 1..r.next - 1] && s[0] == doc[p];
        }
      }
    }
  }

  lemma {:induction false} ScanFinds(doc: string, p: nat, end: nat, quote: char)
    requires p < end <= |doc| && quote != BACKSLASH
    requires doc[end - 1] == quote && Inside(doc[p..end - 1], quote)
    ensures ScanString(doc, p, quote) == Scan(true, end)
    decreases end - p
  {
    if p < end - 1 {
      var s := doc[p..end - 1];
      assert s[0] == doc[p];
      if doc[p] == BACKSLASH {
        assert s[2..] == doc[p + 2..end - 1];
        ScanFinds(doc, p + 2, end, quote);
      } else {
        assert s[1..] == doc[p + 1..end - 1];
        ScanFinds(doc, p + 1, end, quote);
      }
    }
  }

  // ----- numbers -------------------------------------------------------------------------

  predicate IsFraction(s: string) { s == "" || (s[0] == '.' && AllOf(s[1..], DIGITS)) }

  predicate IsExponent(s: string) {
    s == "" || (s[0] in "eE" && (AllOf(s[1..], DIGITS) || (|s| > 1 && s[1] in "+-" && AllOf(s[2..], DIGITS))))
  }

  predicate NumberParts(s: string, digits: string, fraction: string, exponent: string) {
    s == digits + fraction + exponent && AllOf(digits, DIGITS) && IsFraction(fraction) && IsExponent(exponent)
  }

  /** A minus or a digit, and then digits, a fraction and an exponent, each of which may be missing. */
  ghost predicate IsNumberText(t: string) {
    t != "" && (t[0] == '-' || t[0] in DIGITS) && exists a, b, c :: NumberParts(t[1..], a, b, c)
  }

  lemma {:induction false} DigitsMeaning(doc: string, p: nat)
    requires p <= |doc|
    ensures AllOf(doc[p..SkipDigits(doc, p)], DIGITS)
    ensures SkipDigits(doc, p) < |doc| ==> doc[SkipDigits(doc, p)] !in DIGITS
    decreases |doc| - p
  {
    if p < |doc| {
      DigitListed(doc[p]);
      if IsDigit(doc[p]) {
        DigitsMeaning(doc, p + 1);
        var q := SkipDigits(doc, p + 1);
        assert doc[p..q] == [doc[p]] + doc[p + 1..q];
      }
    }
  }

  lemma NumberMeaning(doc: string, p: nat)
    requires p <= |doc|
    ensures exists a, b, c :: NumberParts(doc[p..NumberEnd(doc, p)], a, b, c)
  {
    hide SkipDigits;
    var q := SkipDigits(doc, p);
    var r := Fraction(doc, q);
    var e := Exponent(doc, r);
    DigitsMeaning(doc, p);
    FractionMeaning(doc, q);
    ExponentMeaning(doc, r);
    assert doc[p..e] == doc[p..q] + doc[q..r] + doc[r..e];
    assert NumberParts(doc[p..e], doc[p..q], doc[q..r], doc[r..e]);
    assert e == NumberEnd(doc, p);
  }

  lemma FractionMeaning(doc: string, p: nat)
    requires p <= |doc|
    ensures IsFraction(doc[p..Fraction(doc, p)])
  {
    hide SkipDigits;
    if CharAt(doc, p) == '.' {
      DigitsMeaning(doc, p + 1);
      var q := SkipDigits(doc, p + 1);
      assert doc[p..q][1..] == doc[p + 1..q];
    }
  }

  lemma ExponentMeaning(doc: string, p: nat)
    requires p <= |doc|
    ensures IsExponent(doc[p..Exponent(doc, p)])
  {
    hide SkipDigits;
    if CharAt(doc, p) == 'e' || CharAt(doc, p) == 'E' {
      if CharAt(doc, p + 1) == '+' || CharAt(doc, p + 1) == '-' {
        DigitsMeaning(doc, p + 2);
        var q := SkipDigits(doc, p + 2);
        assert doc[p..q][0] == doc[p] && doc[p..q][1] == doc[p + 1];
        assert doc[p..q][2..] == doc[p + 2..q];
      } else {
        DigitsMeaning(doc, p + 1);
        var q := SkipDigits(doc, p + 1);
        assert doc[p..q][0] == doc[p];
        assert doc[p..q][1..] == doc[p + 1..q];
      }
    }
  }

  lemma {:induction false} SkipsAtLeast(doc: string, p: nat, end: nat)
    requires p <= end <= |doc| && AllOf(doc[p..end], DIGITS)
    ensures end <= SkipDigits(doc, p)
    ensures end < |doc| && doc[end] !in DIGITS ==> SkipDigits(doc, p) == end
    decreases end - p
  {
    if p < |doc| { DigitListed(doc[p]); }
    if p < end {
      assert doc[p..end][0] == doc[p];
      assert doc[p..end][1..] == doc[p + 1..end];
      SkipsAtLeast(doc, p + 1, end);
    }
  }

  /** The scanner takes the longest number: no text that goes on further is one. */
  lemma NumberIsLongest(doc: string, p: nat, end: nat, a: string, b: string, c: string)
    requires p <= end <= |doc| && NumberParts(doc[p..end], a, b, c)
    ensures end <= NumberEnd(doc, p)
  {
    hide SkipDigits, Fraction, Exponent;
    var q, r := p + |a|, p + |a| + |b|;
    NumberPieces(doc, p, end, a, b, c);
    SkipsAtLeast(doc, p, q);
    if b == "" && c == "" {
    } else {
      assert doc[q] == if b != "" then b[0] else c[0];
      FractionReaches(doc, q, r);
      if c != "" {
        assert doc[r] == c[0];
        ExponentReaches(doc, r, end);
      }
    }
  }

  lemma NumberPieces(doc: string, p: nat, end: nat, a: string, b: string, c: string)
    requires p <= end <= |doc| && doc[p..end] == a + b + c
    ensures p + |a| + |b| + |c| == end
    ensures doc[p..p + |a|] == a && doc[p + |a|..p + |a| + |b|] == b && doc[p + |a| + |b|..end] == c
  {
    var n := end - p;
    SliceOfSlice(doc, p, n, 0, |a|);
    SliceOfSlice(doc, p, n, |a|, |b|);
    SliceOfSlice(doc, p, n, |a| + |b|, |c|);
  }

  lemma FractionReaches(doc: string, q: nat, r: nat)
    requires q <= r <= |doc| && IsFraction(doc[q..r])
    ensures r <= Fraction(doc, q) || q == r
    ensures r < |doc| && doc[r] in "eE" ==> Fraction(doc, q) == r
  {
    hide SkipDigits;
    if q < r {
      assert doc[q..r][0] == doc[q];
      assert doc[q..r][1..] == doc[q + 1..r];
      SkipsAtLeast(doc, q + 1, r);
    }
  }

  lemma ExponentReaches(doc: string, r: nat, end: nat)
    requires r < end <= |doc| && IsExponent(doc[r..end])
    ensures end <= Exponent(doc, r)
  {
    hide SkipDigits;
    var s := doc[r..end];
    assert s[0] == doc[r];
    assert s[1..] == doc[r + 1..end];
    if AllOf(s[1..], DIGITS) {
      if r + 1 < end { assert s[1..][0] == doc[r + 1]; }
      SkipsAtLeast(doc, r + 1, end);
      if CharAt(doc, r + 1) == '+' || CharAt(doc, r + 1) == '-' {
        assert r + 1 == end;
      }
    } else {
      assert s[1] == doc[r + 1] && s[2..] == doc[r + 2..end];
      SkipsAtLeast(doc, r + 2, end);
    }
  }

  // ----- comments ------------------------------------------------------------------------

  predicate ClosesAt(s: string, i: int) { 0 <= i < |s| - 1 && s[i] == '*' && s[i + 1] == '/' }

  /** From the first two characters on to the first closing mark. */
  predicate IsBlockComment(t: string) {
    |t| >= 4 && t[1] == '*' && ClosesAt(t, |t| - 2) && forall i :: 2 <= i < |t| - 2 ==> !ClosesAt(t, i)
  }

  predicate OneLine(s: string) { forall i :: 0 <= i < |s| ==> s[i] != '\n' && s[i] != '\r' }

  /** The rest of a line with its end: nothing, a line feed, a carriage return, or both. */
  predicate IsLine(s: string) {
    || OneLine(s)
    || (|s| >= 1 && OneLine(s[..|s| - 1]) && (s[|s| - 1] == '\n' || s[|s| - 1] == '\r'))
    || (|s| >= 2 && OneLine(s[..|s| - 2]) && s[|s| - 2] == '\r' && s[|s| - 1] == '\n')
  }

  predicate IsLineComment(t: string) { |t| >= 2 && t[1] == '/' && IsLine(t[2..]) }

  /** OurReader takes a single quote that may not open a string for the start of a comment. */
  predicate IsCommentText(f: Features, t: string) {
    && t != "" && (t[0] == '/' || (t[0] == '\'' && f.ours && !f.allowSingleQuotes))
    && (IsBlockComment(t) || IsLineComment(t))
  }

  lemma {:induction false} BlockMeaning(doc: string, p: nat)
    requires p <= |doc|
    ensures var r := CStyleComment(doc, p);
      && (r.ok ==> p + 2 <= r.next && ClosesAt(doc, r.next - 2))
      && (!r.ok ==> r.next == |doc|)
      && forall i :: p <= i < (if r.ok then r.next - 2 else |doc|) ==> !ClosesAt(doc, i)
    decreases |doc| - p
  {
    if p < |doc| && !(doc[p] == '*' && CharAt(doc, p + 1) == '/') { BlockMeaning(doc, p + 1); }
  }

  lemma {:induction false} LineMeaning(doc: string, p: nat)
    requires p <= |doc|
    ensures var q := CppStyleComment(doc, p);
      && IsLine(doc[p..q])
      && (OneLine(doc[p..q]) ==> q == |doc|)
      && (q < |doc| && doc[q - 1] == '\r' ==> doc[q] != '\n')
    decreases |doc| - p
  {
    var q := CppStyleComment(doc, p);
    if p < |doc| {
      if doc[p] == '\n' || doc[p] == '\r' {
        assert doc[p..q][0] == doc[p];
      } else {
        LineMeaning(doc, p + 1);
        OneMoreOnLine(doc[p], doc[p + 1..q]);
        assert doc[p..q] == [doc[p]] + doc[p + 1..q];
      }
    }
  }

  lemma OneMoreOnLine(c: char, s: string)
    requires c != '\n' && c != '\r' && IsLine(s)
    ensures IsLine([c] + s) && (OneLine([c] + s) ==> OneLine(s))
  {
    var t := [c] + s;
    if |s| >= 1 { assert t[..|t| - 1] == [c] + s[..|s| - 1]; }
    if |s| >= 2 { assert t[..|t| - 2] == [c] + s[..|s| - 2]; }
    if OneLine(t) { assert forall i :: 0 <= i < |s| ==> s[i] == t[i + 1]; }
  }

  // ----- the kind of a token's text ------------------------------------------------------

  ghost function KindOf(f: Features, t: string): TokenType {
    if t == "" || t == [NUL] then EndOfStream
    else if t == "{" then ObjectBegin
    else if t == "}" then ObjectEnd
    else if t == "[" then ArrayBegin
    else if t == "]" then ArrayEnd
    else if t == "," then ArraySeparator
    else if t == ":" then MemberSeparator
    else if t == "true" then TrueToken
    else if t == "false" then FalseToken
    else if t == "null" then NullToken
    else if t == "NaN" && f.ours && f.allowSpecialFloats then NaNToken
    else if t == "Infinity" && f.ours && f.allowSpecialFloats then PosInfToken
    else if t == "-Infinity" && f.ours && f.allowSpecialFloats then NegInfToken
    else if IsStringText(f, t) then StringToken
    else if IsNumberText(t) then NumberToken
    else if IsCommentText(f, t) then CommentToken
    else ErrorToken
  }

  /** What Lex says of the text from `start`, whose first character is there. */
  ghost predicate LexesTo(f: Features, doc: string, start: nat)
    requires start < |doc|
  {
    var r := Lex(f, doc, doc[start], start + 1);
    KindOf(f, doc[start..r.next]) == if r.ok then r.kind else ErrorToken
  }

  lemma LexPunctuation(f: Features, doc: string, start: nat)
    requires start < |doc| && Punctuation(doc[start])
    ensures LexesTo(f, doc, start)
  {
    assert doc[start..start + 1] == [doc[start]];
  }

  lemma NumberFirst(t: string)
    ensures IsNumberText(t) ==> t != "" && t[0] in "-0123456789"
  {
  }

  /** A text that begins with a quote that may open a string is a string or an error. */
  lemma QuoteKind(f: Features, t: string, quote: char)
    requires t != "" && t[0] == quote
    requires quote == QUOTE || (quote == '\'' && f.ours && f.allowSingleQuotes)
    ensures KindOf(f, t) == if QuotedBy(t, quote) then StringToken else ErrorToken
  {
    hide IsNumberText, IsBlockComment, IsLineComment, Inside;
    NumberFirst(t);
  }

  lemma LexString(f: Features, doc: string, start: nat, quote: char)
    requires start < |doc| && doc[start] == quote
    requires quote == QUOTE || (quote == '\'' && f.ours && f.allowSingleQuotes)
    ensures LexesTo(f, doc, start)
  {
    hide KindOf, ScanString, QuotedBy;
    var r := ScanString(doc, start + 1, quote);
    assert Lex(f, doc, quote, start + 1) == Word(StringToken, r);
    StringEnds(doc, start, quote);
    QuoteKind(f, doc[start..r.next], quote);
  }

  lemma StringEnds(doc: string, start: nat, quote: char)
    requires start < |doc| && doc[start] == quote && quote != BACKSLASH
    ensures var r := ScanString(doc, start + 1, quote);
      doc[start..r.next][0] == quote && (r.ok <==> QuotedBy(doc[start..r.next], quote))
  {
    hide ScanString, Inside;
    var r := ScanString(doc, start + 1, quote);
    var t := doc[start..r.next];
    if r.ok {
      ScanMeaning(doc, start + 1, quote);
      assert t[1..|t| - 1] == doc[start + 1..r.next - 1];
    } else if QuotedBy(t, quote) {
      assert t[1..|t| - 1] == doc[start + 1..r.next - 1];
      assert doc[r.next - 1] == t[|t| - 1];
      ScanFinds(doc, start + 1, r.next, quote);
    }
  }

  /** A text that begins with a slash, or a quote that may not open a string, is a comment or an error. */
  lemma SlashKind(f: Features, t: string)
    requires t != "" && (t[0] == '/' || (t[0] == '\'' && f.ours && !f.allowSingleQuotes))
    ensures KindOf(f, t) == if IsBlockComment(t) || IsLineComment(t) then CommentToken else ErrorToken
  {
    hide IsNumberText, IsBlockComment, IsLineComment, Inside;
    NumberFirst(t);
  }

  lemma LexComment(f: Features, doc: string, start: nat)
    requires start < |doc| && (doc[start] == '/' || (doc[start] == '\'' && f.ours && !f.allowSingleQuotes))
    ensures LexesTo(f, doc, start)
  {
    hide KindOf, IsLine;
    var p := start + 1;
    var r := Comment(doc, p);
    var t := doc[start..r.next];
    assert t[0] == doc[start];
    SlashKind(f, t);
    assert |t| > 1 ==> t[1] == doc[p];
    if p < |doc| && doc[p] == '*' {
      BlockText(doc, start, r);
    } else if p < |doc| && doc[p] == '/' {
      LineMeaning(doc, p + 1);
      assert t[2..] == doc[p + 1..r.next];
    }
  }

  lemma BlockText(doc: string, start: nat, r: Scan)
    requires start + 2 <= |doc| && doc[start + 1] == '*' && r == CStyleComment(doc, start + 2)
    ensures r.ok <==> IsBlockComment(doc[start..r.next])
  {
    BlockMeaning(doc, start + 2);
    var t := doc[start..r.next];
    forall i | 0 <= i < |t| - 1 ensures ClosesAt(t, i) <==> ClosesAt(doc, start + i) { }
    if r.ok {
      assert ClosesAt(doc, start + (|t| - 2));
      forall i | 2 <= i < |t| - 2 ensures !ClosesAt(t, i) { assert !ClosesAt(doc, start + i); }
    } else if |t| >= 4 {
      assert !ClosesAt(doc, start + (|t| - 2));
    }
  }

  lemma LexNumber(f: Features, doc: string, start: nat)
    requires start < |doc| && (doc[start] == '-' || IsDigit(doc[start]))
    requires !(doc[start] == '-' && StartsInfinity(f, doc, start + 1))
    ensures LexesTo(f, doc, start)
  {
    hide NumberEnd, NumberParts;
    var end := NumberEnd(doc, start + 1);
    var t := doc[start..end];
    DigitListed(doc[start]);
    NumberMeaning(doc, start + 1);
    assert t[0] == doc[start] && t[1..] == doc[start + 1..end];
    assert IsNumberText(t);
    assert t != "-Infinity" by { if t == "-Infinity" { InfinityIsNoNumber(t); } }
  }

  lemma NumberStarts(s: string, a: string, b: string, c: string)
    requires NumberParts(s, a, b, c) && s != ""
    ensures s[0] in DIGITS || s[0] == '.' || s[0] in "eE"
  {
    assert s[0] == if a != "" then a[0] else if b != "" then b[0] else c[0];
  }

  lemma InfinityIsNoNumber(t: string)
    requires |t| >= 2 && t[1] == 'I'
    ensures !IsNumberText(t)
  {
    hide NumberParts;
    forall a, b, c ensures !NumberParts(t[1..], a, b, c) {
      if NumberParts(t[1..], a, b, c) { NumberStarts(t[1..], a, b, c); }
    }
  }

  /** A literal name of which the first character stands at `start`. */
  lemma LexWord(f: Features, doc: string, start: nat, word: string)
    requires start < |doc| && word in {"true", "false", "null"} && doc[start] == word[0]
    ensures LexesTo(f, doc, start)
  {
    hide IsNumberText, IsStringText, IsCommentText;
    var r := Match(doc, start + 1, word[1..]);
    WordText(doc, start, word);
    OtherText(f, doc[start..r.next]);
  }

  lemma WordText(doc: string, start: nat, word: string)
    requires start < |doc| && word != "" && doc[start] == word[0]
    ensures var r := Match(doc, start + 1, word[1..]);
      doc[start..r.next] == if r.ok then word else [word[0]]
  {
    var r := Match(doc, start + 1, word[1..]);
    if r.ok { assert doc[start..r.next] == [doc[start]] + doc[start + 1..r.next]; }
  }

  /** Texts that begin with a letter are no strings, numbers or comments. */
  lemma OtherText(f: Features, t: string)
    requires t != "" && t[0] !in "\"'/-0123456789"
    ensures !IsStringText(f, t) && !IsNumberText(t) && !IsCommentText(f, t)
  {
  }

  lemma LexMinusInfinity(f: Features, doc: string, start: nat)
    requires start < |doc| && f.ours && doc[start] == '-' && StartsInfinity(f, doc, start + 1)
    ensures LexesTo(f, doc, start)
  {
    hide IsNumberText;
    var r := Lex(f, doc, doc[start], start + 1);
    var t := doc[start..r.next];
    assert t[0] == '-' && t[1] == 'I';
    InfinityIsNoNumber(t);
    if r.ok {
      assert t == ['-', 'I'] + doc[start + 2..r.next];
      assert t == "-Infinity";
    } else {
      assert t == "-I";
    }
  }

  lemma LexSpecial(f: Features, doc: string, start: nat)
    requires start < |doc| && f.ours && f.allowSpecialFloats && (doc[start] == 'N' || doc[start] == 'I')
    ensures LexesTo(f, doc, start)
  {
    hide IsNumberText, IsStringText, IsCommentText;
    var word := if doc[start] == 'N' then "NaN" else "Infinity";
    var r := Match(doc, start + 1, word[1..]);
    assert word[1..] == if doc[start] == 'N' then "aN" else "nfinity";
    WordText(doc, start, word);
    OtherText(f, doc[start..r.next]);
  }

  /** All other characters are one-character errors, NUL apart. */
  lemma LexOther(f: Features, doc: string, start: nat)
    requires start < |doc| && !Punctuation(doc[start])
    requires doc[start] !in "\"'/-0123456789tfn"
    requires !(f.ours && f.allowSpecialFloats && (doc[start] == 'N' || doc[start] == 'I'))
    ensures LexesTo(f, doc, start)
  {
    hide IsNumberText, IsStringText, IsCommentText;
    DigitListed(doc[start]);
    assert doc[start..start + 1] == [doc[start]];
    OtherText(f, [doc[start]]);
  }

  /** In Reader a single quote is an error. */
  lemma LexQuote(f: Features, doc: string, start: nat)
    requires start < |doc| && doc[start] == '\'' && !f.ours
    ensures LexesTo(f, doc, start)
  {
    hide IsNumberText;
    assert doc[start..start + 1] == "'";
    assert !IsNumberText("'") by { NoNumber(); }
  }

  lemma NoNumber()
    ensures !IsNumberText("'")
  {
  }

  lemma LexMeaning(f: Features, doc: string, start: nat)
    requires start < |doc|
    ensures LexesTo(f, doc, start)
  {
    hide LexesTo;
    var c := doc[start];
    DigitListed(c);
    if Punctuation(c) {
      LexPunctuation(f, doc, start);
    } else if c == QUOTE || (c == '\'' && f.ours && f.allowSingleQuotes) {
      LexString(f, doc, start, c);
    } else if c == '/' || (c == '\'' && f.ours) {
      LexComment(f, doc, start);
    } else if c == '\'' {
      LexQuote(f, doc, start);
    } else if c == '-' && StartsInfinity(f, doc, start + 1) {
      LexMinusInfinity(f, doc, start);
    } else if c == '-' || IsDigit(c) {
      LexNumber(f, doc, start);
    } else if c == 't' {
      LexWord(f, doc, start, "true");
    } else if c == 'f' {
      LexWord(f, doc, start, "false");
    } else if c == 'n' {
      LexWord(f, doc, start, "null");
    } else if f.ours && f.allowSpecialFloats && (c == 'N' || c == 'I') {
      LexSpecial(f, doc, start);
    } else {
      LexOther(f, doc, start);
    }
  }

  /** Every token has the kind that its text has in the grammar, and begins behind the white space. */
  lemma TokenMeaning(f: Features, doc: string, p: nat)
    requires p <= |doc|
    ensures var t := ReadToken(f, doc, p);
      && t.kind == KindOf(f, TokenText(doc, t))
      && AllOf(doc[p..t.start], " \t\r\n") && (t.start < |doc| ==> doc[t.start] !in " \t\r\n")
      && (TokenText(doc, t) == "" <==> t.start == |doc|)
  {
    hide Lex, KindOf;
    var start := SkipSpaces(doc, p);
    SpacesMeaning(doc, p);
    if start < |doc| {
      LexMeaning(f, doc, start);
    } else {
      assert KindOf(f, "") == EndOfStream by { EmptyKind(f); }
      EndToken(f, doc, p);
    }
  }

  lemma EmptyKind(f: Features)
    ensures KindOf(f, "") == EndOfStream
  {
  }

  lemma EndToken(f: Features, doc: string, p: nat)
    requires p <= |doc| && SkipSpaces(doc, p) == |doc|
    ensures ReadToken(f, doc, p) == Token(EndOfStream, |doc|, |doc|)
  {
  }

  lemma {:induction false} SpacesMeaning(doc: string, p: nat)
    requires p <= |doc|
    ensures var q := SkipSpaces(doc, p);
      AllOf(doc[p..q], " \t\r\n") && (q < |doc| ==> doc[q] !in " \t\r\n")
    decreases |doc| - p
  {
    if p < |doc| {
      SpaceListed(doc[p]);
      if IsSpace(doc[p]) {
        SpacesMeaning(doc, p + 1);
        var q := SkipSpaces(doc, p + 1);
        assert doc[p..q] == [doc[p]] + doc[p + 1..q];
      }
    }
  }

  // ----- nothing in the grammar is missed --------------------------------------------------

  /** No longer text from the same place has this kind. */
  ghost predicate Longest(f: Features, doc: string, start: nat, end: nat)
    requires start <= end <= |doc|
  {
    forall e :: end < e <= |doc| ==> KindOf(f, doc[start..e]) != KindOf(f, doc[start..end])
  }

  /** A text of the grammar that stands at the cursor is the next token, if numbers and comments are
      taken as long as they go.  The one exception is OurReader's reading of "-I". */
  lemma TokenComplete(f: Features, doc: string, start: nat, end: nat)
    requires start < end <= |doc| && doc[start] !in " \t\r\n"
    requires var kind := KindOf(f, doc[start..end]);
      && kind != ErrorToken && kind != EndOfStream
      && (kind == NumberToken || kind == CommentToken ==> Longest(f, doc, start, end))
      && (kind == NumberToken && doc[start] == '-' ==> !StartsInfinity(f, doc, start + 1))
    ensures ReadToken(f, doc, start) == Token(KindOf(f, doc[start..end]), start, end)
  {
    hide KindOf, Lex, ReadToken, Longest;
    var t := doc[start..end];
    SpaceListed(doc[start]);
    assert t[0] == doc[start];
    KindShape(f, t);
    var kind := KindOf(f, t);
    if kind == StringToken {
      StringComplete(f, doc, start, end);
    } else if kind == NumberToken {
      NumberComplete(f, doc, start, end);
    } else if kind == CommentToken {
      CommentComplete(f, doc, start, end);
    } else {
      LiteralComplete(f, doc, start, end);
    }
    TokenFromLex(f, doc, start);
  }

  lemma TokenFromLex(f: Features, doc: string, start: nat)
    requires start < |doc| && !IsSpace(doc[start])
    ensures var r := Lex(f, doc, doc[start], start + 1);
      ReadToken(f, doc, start) == Token(if r.ok then r.kind else ErrorToken, start, r.next)
  {
    hide Lex;
  }

  predicate IsLiteralText(t: string) {
    t == "{" || t == "}" || t == "[" || t == "]" || t == "," || t == ":" || t == "true" || t == "false" || t == "null"
    || t == "NaN" || t == "Infinity" || t == "-Infinity"
  }

  lemma KindShape(f: Features, t: string)
    ensures KindOf(f, t) == StringToken ==> IsStringText(f, t)
    ensures KindOf(f, t) == NumberToken ==> IsNumberText(t)
    ensures KindOf(f, t) == CommentToken ==> IsCommentText(f, t)
    ensures KindOf(f, t) !in {StringToken, NumberToken, CommentToken, ErrorToken, EndOfStream} ==> IsLiteralText(t)
  {
    hide IsStringText, IsNumberText, IsCommentText;
  }

  lemma StringComplete(f: Features, doc: string, start: nat, end: nat)
    requires start < end <= |doc| && IsStringText(f, doc[start..end])
    ensures Lex(f, doc, doc[start], start + 1) == Lexeme(StringToken, true, end)
  {
    var t := doc[start..end];
    SliceOfSlice(doc, start, |t|, 1, |t| - 2);
    assert t[|t| - 1] == doc[end - 1] && t[0] == doc[start];
    ScanFinds(doc, start + 1, end, t[0]);
  }

  lemma NumberComplete(f: Features, doc: string, start: nat, end: nat)
    requires start < end <= |doc| && IsNumberText(doc[start..end]) && KindOf(f, doc[start..end]) == NumberToken
    requires Longest(f, doc, start, end) && (doc[start] == '-' ==> !StartsInfinity(f, doc, start + 1))
    ensures Lex(f, doc, doc[start], start + 1) == Lexeme(NumberToken, true, end)
  {
    hide NumberParts, KindOf, NumberEnd;
    var t := doc[start..end];
    assert t[1..] == doc[start + 1..end] && t[0] == doc[start];
    var a, b, c :| NumberParts(t[1..], a, b, c);
    NumberIsLongest(doc, start + 1, end, a, b, c);
    DigitListed(doc[start]);
    assert Lex(f, doc, doc[start], start + 1) == Lexeme(NumberToken, true, NumberEnd(doc, start + 1));
    LexNumber(f, doc, start);
  }

  lemma CommentComplete(f: Features, doc: string, start: nat, end: nat)
    requires start < end <= |doc| && IsCommentText(f, doc[start..end]) && KindOf(f, doc[start..end]) == CommentToken
    requires Longest(f, doc, start, end)
    ensures Lex(f, doc, doc[start], start + 1) == Lexeme(CommentToken, true, end)
  {
    hide KindOf, IsLine, LexesTo;
    var t := doc[start..end];
    assert t[0] == doc[start] && t[1] == doc[start + 1];
    if IsBlockComment(t) {
      BlockFinds(doc, start, end);
    } else {
      assert t[2..] == doc[start + 2..end];
      LineReaches(doc, start + 2, end);
      LexComment(f, doc, start);
      LineKind(f, doc, start);
    }
  }

  lemma LineKind(f: Features, doc: string, start: nat)
    requires start + 2 <= |doc| && doc[start + 1] == '/' && LexesTo(f, doc, start)
    requires doc[start] == '/' || (doc[start] == '\'' && f.ours && !f.allowSingleQuotes)
    ensures var r := Lex(f, doc, doc[start], start + 1);
      r == Lexeme(CommentToken, true, CppStyleComment(doc, start + 2)) && KindOf(f, doc[start..r.next]) == CommentToken
  {
    hide KindOf;
  }

  lemma {:induction false} FirstClose(doc: string, p: nat, q: nat)
    requires p <= q && ClosesAt(doc, q) && forall i :: p <= i < q ==> !ClosesAt(doc, i)
    ensures CStyleComment(doc, p) == Scan(true, q + 2)
    decreases q - p
  {
    if p < q {
      assert !ClosesAt(doc, p);
      FirstClose(doc, p + 1, q);
    }
  }

  lemma BlockFinds(doc: string, start: nat, end: nat)
    requires start < end <= |doc| && IsBlockComment(doc[start..end])
    ensures CStyleComment(doc, start + 2) == Scan(true, end)
  {
    var t := doc[start..end];
    forall i | 0 <= i < |t| - 1 ensures ClosesAt(t, i) <==> ClosesAt(doc, start + i) { }
    forall i | start + 2 <= i < end - 2 ensures !ClosesAt(doc, i) { assert !ClosesAt(t, i - start); }
    assert ClosesAt(doc, start + (|t| - 2));
    FirstClose(doc, start + 2, end - 2);
  }

  /** The scanner goes on to the end of the line. */
  lemma {:induction false} LineReaches(doc: string, p: nat, end: nat)
    requires p <= end <= |doc| && IsLine(doc[p..end])
    ensures end <= CppStyleComment(doc, p)
    decreases end - p
  {
    var s := doc[p..end];
    if p < end {
      assert s[0] == doc[p];
      assert |s| > 1 ==> s[1] == doc[p + 1];
      if doc[p] != '\n' && doc[p] != '\r' {
        assert s[1..] == doc[p + 1..end];
        LineTail(s);
        LineReaches(doc, p + 1, end);
      } else {
        LineHead(s);
      }
    }
  }

  lemma LineTail(s: string)
    requires s != "" && s[0] != '\n' && s[0] != '\r' && IsLine(s)
    ensures IsLine(s[1..])
  {
    var t := s[1..];
    if OneLine(s) {
      assert OneLine(t);
    } else if |s| >= 2 && OneLine(s[..|s| - 2]) && s[|s| - 2] == '\r' && s[|s| - 1] == '\n' {
      assert t[..|t| - 2] == s[..|s| - 2][1..];
    } else {
      assert t[..|t| - 1] == s[..|s| - 1][1..];
    }
  }

  lemma LineHead(s: string)
    requires s != "" && (s[0] == '\n' || s[0] == '\r') && IsLine(s)
    ensures |s| == 1 || (|s| == 2 && s[0] == '\r' && s[1] == '\n')
  {
    if |s| > 1 { PrefixStarts(s, |s| - 1); }
    if |s| > 2 { PrefixStarts(s, |s| - 2); }
  }

  lemma PrefixStarts(s: string, n: nat)
    requires 0 < n <= |s|
    ensures OneLine(s[..n]) ==> s[0] != '\n' && s[0] != '\r'
  {
    assert s[..n][0] == s[0];
  }

  lemma LiteralComplete(f: Features, doc: string, start: nat, end: nat)
    requires start < end <= |doc| && IsLiteralText(doc[start..end])
    requires KindOf(f, doc[start..end]) != ErrorToken
    ensures Lex(f, doc, doc[start], start + 1) == Lexeme(KindOf(f, doc[start..end]), true, end)
  {
    hide IsStringText, IsNumberText, IsCommentText;
    var t := doc[start..end];
    assert t[0] == doc[start];
    if |t| > 1 {
      assert t[1..] == doc[start + 1..end] && t[1] == doc[start + 1];
      assert t[2..] == doc[start + 2..end];
      LiteralTails(t);
      NotLiteralNumber(f, t);
    }
  }

  lemma LiteralTails(t: string)
    ensures t == "true" ==> t[1..] == "rue"
    ensures t == "false" ==> t[1..] == "alse"
    ensures t == "null" ==> t[1..] == "ull"
    ensures t == "NaN" ==> t[1..] == "aN"
    ensures t == "Infinity" ==> t[1..] == "nfinity"
    ensures t == "-Infinity" ==> t[2..] == "nfinity"
  {
  }

  /** Without special floats their names are no tokens at all. */
  lemma NotLiteralNumber(f: Features, t: string)
    requires t == "NaN" || t == "Infinity" || t == "-Infinity" || |t| < 3 || t[0] == 't' || t[0] == 'f' || t[0] == 'n'
    ensures t == "NaN" || t == "Infinity" || t == "-Infinity" ==> !IsNumberText(t) && !IsStringText(f, t) && !IsCommentText(f, t)
  {
    if t == "-Infinity" { InfinityIsNoNumber(t); }
  }
}
