/** What decodeString computes, written out after section 7 of RFC 8259 and without a cursor.

    Where the readers are more liberal than the RFC the specification says so: an unescaped quote
    ends the text, any code unit may follow a high surrogate, and a surrogate that is not the first
    of a pair is encoded on its own. */
module JsonEscapes {
  import opened JsonValue
  import opened JsonNumber
  import opened JsonString

  /** The letters behind a backslash, and the bytes they stand for. */
  const ESCAPE_LETTERS: string := "\"\\/bfnrt"
  const ESCAPE_MEANINGS: string := "\"\\/\U{8}\U{C}\n\r\t"

  /** The number that four hexadecimal digits spell. */
  function CodeUnit(t: string): Option<nat> {
    if |t| == 4 && HexIndex(t[0]) >= 0 && HexIndex(t[1]) >= 0 && HexIndex(t[2]) >= 0 && HexIndex(t[3]) >= 0
    then Some(HexIndex(t[0]) * 0x1000 + HexIndex(t[1]) * 0x100 + HexIndex(t[2]) * 0x10 + HexIndex(t[3]))
    else None
  }

  function Slice(s: string, i: nat, j: nat): string
    requires i <= j
  {
    if j <= |s| then s[i..j] else ""
  }

  function Before(a: string, rest: Option<string>): Option<string> {
    if rest.Some? then Some(a + rest.value) else None
  }

  /** The code point that "\\u" at the front of the text begins, and how many characters it takes. */
  function UnicodePart(s: string): (r: Option<(nat, nat)>)
    ensures r.Some? ==> 6 <= r.value.1 <= |s| && r.value.0 <= 0x10FFFF
  {
    var unit := CodeUnit(Slice(s, 2, 6));
    if unit.None? then None
    else if !(0xD800 <= unit.value < 0xDC00) then Some((unit.value, 6))
    else
      var low := CodeUnit(Slice(s, 8, 12));
      if low.None? || Slice(s, 6, 8) != "\\u" then None
      else Some((0x10000 + (unit.value - 0xD800) * 0x400 + low.value % 0x400, 12))
  }

  /** The bytes that the characters between the quotes stand for, or nothing for a bad escape. */
  function Unescape(s: string): Option<string>
    decreases |s|
  {
    if s == "" || s[0] == QUOTE then Some("")
    else if s[0] != BACKSLASH then Before([s[0]], Unescape(s[1..]))
    else if |s| == 1 then None
    else if s[1] == 'u' then
      var part := UnicodePart(s);
      if part.None? then None else Before(Utf8(part.value.0), Unescape(s[part.value.1..]))
    else
      var meaning := LetterMeaning(s[1]);
      if meaning.None? then None else Before([meaning.value], Unescape(s[2..]))
  }

  function LetterMeaning(c: char): Option<char> {
    MeaningLengths();
    var i := IndexIn(c, ESCAPE_LETTERS);
    if i < 0 then None else Some(ESCAPE_MEANINGS[i])
  }

  lemma MeaningLengths()
    ensures |ESCAPE_LETTERS| == |ESCAPE_MEANINGS| == 8
    ensures forall i :: 0 <= i < 8 ==> SimpleEscape(ESCAPE_LETTERS[i]) == Some(ESCAPE_MEANINGS[i])
  {
  }

  /** The one-letter escapes. */
  lemma LettersAgree(c: char)
    ensures SimpleEscape(c) == LetterMeaning(c)
  {
    MeaningLengths();
    if SimpleEscape(c).Some? {
      assert ESCAPE_LETTERS[0] == QUOTE && ESCAPE_LETTERS[1] == BACKSLASH && ESCAPE_LETTERS[2] == '/'
        && ESCAPE_LETTERS[3] == 'b' && ESCAPE_LETTERS[4] == 'f' && ESCAPE_LETTERS[5] == 'n'
        && ESCAPE_LETTERS[6] == 'r' && ESCAPE_LETTERS[7] == 't';
    }
  }

  lemma UnitAgrees(doc: string, p: nat, end: nat)
    requires p <= end <= |doc|
    ensures var unit := CodeUnit(Slice(doc[p..end], 0, 4));
      if unit.Some? then end - p >= 4 && EscapeSequence(doc, p, end) == Escape(unit.value, p + 4)
      else EscapeSequence(doc, p, end).Broken?
  {
    if end - p >= 4 {
      var t := Slice(doc[p..end], 0, 4);
      assert t == doc[p..p + 4];
      if CodeUnit(t).Some? {
        assert Spells(t, CodeUnit(t).value) && TextAt(doc, p, t);
        SpelledSequence(doc, p, end, t, CodeUnit(t).value);
      } else {
        BadUnit(doc, p, t);
      }
    }
  }

  lemma BadUnit(doc: string, p: nat, t: string)
    requires p + 4 <= |doc| && t == doc[p..p + 4] && CodeUnit(t).None?
    ensures ReadHex(doc, p, 4, 0).Broken?
  {
    hide HexIndex, HexValue;
    assert t[0] == doc[p] && t[1] == doc[p + 1] && t[2] == doc[p + 2] && t[3] == doc[p + 3];
    HexValueIsIndex(doc[p]);
    HexValueIsIndex(doc[p + 1]);
    HexValueIsIndex(doc[p + 2]);
    HexValueIsIndex(doc[p + 3]);
    var a, b := HexValue(doc[p]), HexValue(doc[p + 1]);
    if a >= 0 && b >= 0 {
      var c := HexValue(doc[p + 2]);
      assert ReadHex(doc, p, 4, 0) == ReadHex(doc, p + 1, 3, a) == ReadHex(doc, p + 2, 2, a * 16 + b);
      assert c >= 0 ==> ReadHex(doc, p + 2, 2, a * 16 + b) == ReadHex(doc, p + 3, 1, (a * 16 + b) * 16 + c);
    } else if a >= 0 {
      assert ReadHex(doc, p, 4, 0) == ReadHex(doc, p + 1, 3, a);
    }
  }

  lemma PartAgrees(doc: string, p: nat, end: nat)
    requires p + 2 <= end <= |doc|
    ensures var part := UnicodePart(doc[p..end]);
      if part.Some? then p + part.value.1 <= end && EscapedCodePoint(doc, p + 2, end) == Escape(part.value.0, p + part.value.1)
      else EscapedCodePoint(doc, p + 2, end).Broken?
  {
    hide CodeUnit, EscapeSequence;
    var s := doc[p..end];
    assert Slice(s, 2, 6) == Slice(doc[p + 2..end], 0, 4);
    UnitAgrees(doc, p + 2, end);
    if end - p >= 12 {
      assert Slice(s, 8, 12) == Slice(doc[p + 8..end], 0, 4);
      assert Slice(s, 6, 8) == [doc[p + 6], doc[p + 7]];
      UnitAgrees(doc, p + 8, end);
    } else {
      assert CodeUnit(Slice(s, 8, 12)).None? by { NoUnit(); }
    }
  }

  lemma NoUnit()
    ensures CodeUnit("").None?
  {
  }

  /** The outcome of decodeString said by the specification. */
  predicate Says(d: Decoded, u: Option<string>) {
    match d
    case Decoded(text) => u == Some(text)
    case Undecodable(_, _) => u == None
  }

  /** decodeString is the specification: same bytes, and an error exactly where there are none. */
  lemma {:induction false} DecodingIsUnescaping(doc: string, p: nat, end: nat)
    requires p <= end <= |doc|
    ensures Says(DecodeChars(doc, p, end), Unescape(doc[p..end]))
    decreases end - p
  {
    hide EscapedCodePoint, UnicodePart, Utf8, SimpleEscape, LetterMeaning;
    var s := doc[p..end];
    if p < end && doc[p] != QUOTE {
      assert s[0] == doc[p];
      if doc[p] != BACKSLASH {
        assert s[1..] == doc[p + 1..end];
        DecodingIsUnescaping(doc, p + 1, end);
      } else if p + 1 < end {
        assert s[1] == doc[p + 1];
        if doc[p + 1] == 'u' {
          PartAgrees(doc, p, end);
          var part := UnicodePart(s);
          if part.Some? {
            assert s[part.value.1..] == doc[p + part.value.1..end];
            DecodingIsUnescaping(doc, p + part.value.1, end);
          }
        } else {
          assert s[2..] == doc[p + 2..end];
          LettersAgree(doc[p + 1]);
          DecodingIsUnescaping(doc, p + 2, end);
        }
      }
    }
  }

  /** A code point of the basic plane that is no high surrogate, written as an escape with digits in
      either case, decodes to its UTF-8 encoding. */
  lemma EscapeMeans(t: string, cp: nat, rest: string)
    requires Spells(t, cp) && !(0xD800 <= cp < 0xDC00)
    ensures Unescape("\\u" + t + rest) == Before(Utf8(cp), Unescape(rest))
  {
    hide HexIndex, Utf8;
    var s := "\\u" + t + rest;
    assert Slice(s, 2, 6) == t && s[6..] == rest;
  }

  /** Every other code point, written as a surrogate pair. */
  lemma PairMeans(high: string, low: string, cp: nat, rest: string)
    requires 0x10000 <= cp <= 0x10FFFF
    requires Spells(high, 0xD800 + (cp - 0x10000) / 0x400) && Spells(low, 0xDC00 + (cp - 0x10000) % 0x400)
    ensures Unescape("\\u" + high + "\\u" + low + rest) == Before(Utf8(cp), Unescape(rest))
  {
    hide HexIndex, Utf8, Unescape;
    var s := "\\u" + high + "\\u" + low + rest;
    assert Slice(s, 2, 6) == high && Slice(s, 6, 8) == "\\u" && Slice(s, 8, 12) == low && s[12..] == rest;
    SurrogateArithmetic(cp);
    PartStep(s, cp, 12);
  }

  lemma PartStep(s: string, cp: nat, n: nat)
    requires |s| > 1 && s[0] == BACKSLASH && s[1] == 'u' && UnicodePart(s) == Some((cp, n))
    ensures Unescape(s) == Before(Utf8(cp), Unescape(s[n..]))
  {
    hide UnicodePart, Utf8;
  }

  /** Carried to the reader: a string token's characters that escape one code point decode to it. */
  lemma CodePointDecodes(doc: string, p: nat, end: nat, cp: nat, high: string, low: string)
    requires p <= end <= |doc| && cp <= 0x10FFFF && !(0xD800 <= cp < 0xE000)
    requires if cp < 0x10000 then Spells(high, cp) && doc[p..end] == "\\u" + high
      else
        && Spells(high, 0xD800 + (cp - 0x10000) / 0x400) && Spells(low, 0xDC00 + (cp - 0x10000) % 0x400)
        && doc[p..end] == "\\u" + high + "\\u" + low
    ensures DecodeChars(doc, p, end) == Decoded(Utf8(cp))
  {
    hide DecodeChars, Utf8, Spells;
    DecodingIsUnescaping(doc, p, end);
    assert Utf8(cp) + "" == Utf8(cp);
    assert Unescape("") == Some("");
    assert doc[p..end] + "" == doc[p..end];
    if cp < 0x10000 { EscapeMeans(high, cp, ""); } else { PairMeans(high, low, cp, ""); }
  }

  // ----- the forms written ---------------------------------------------------------------------

  /** codePointToUTF8 takes the shortest layout, as section 3 of RFC 3629 demands. */
  lemma ShortestForm(s: string, cp: nat)
    requires Utf8Layout(s).Some? && Utf8Layout(s).value.code == cp
    ensures cp <= 0x10FFFF ==> |Utf8(cp)| <= Utf8Layout(s).value.length
  {
  }

  /** What is escaped when a string is quoted, and in which form: quote, backslash and the bytes below
      the space, with a letter where there is one and otherwise with upper-case digits. */
  lemma EscapedForms(c: char)
    ensures EscapedChar(c) == [c] <==> c != '\"' && c != '\\' && ' ' <= c
    ensures EscapedChar(c) != [c] && c in ESCAPE_MEANINGS ==> |EscapedChar(c)| == 2
    ensures EscapedChar(c) != [c] && c !in ESCAPE_MEANINGS ==>
      c as int < 0x20 && EscapedChar(c) == "\\u00" + [UPPER_HEX[c as int / 16], UPPER_HEX[c as int % 16]]
  {
    assert ESCAPE_MEANINGS[0] == QUOTE && ESCAPE_MEANINGS[1] == BACKSLASH && ESCAPE_MEANINGS[3] == BACKSPACE
      && ESCAPE_MEANINGS[4] == FORM_FEED && ESCAPE_MEANINGS[5] == '\n' && ESCAPE_MEANINGS[6] == '\r' && ESCAPE_MEANINGS[7] == '\t';
  }

  // ----- bad escapes -------------------------------------------------------------------------

  /** What is reported, and how far into the text. */
  datatype Fault = Fault(error: StringError, offset: nat)

  function Later(n: nat, fault: Fault): Fault { fault.(offset := n + fault.offset) }

  /** What is wrong with the four digits at `i`: too few, or behind which one the first bad one ends. */
  function UnitFault(s: string, i: nat): Fault {
    if |s| < i + 4 then Fault(FourDigitsExpected, i)
    else if HexIndex(s[i]) < 0 then Fault(HexDigitExpected, i + 1)
    else if HexIndex(s[i + 1]) < 0 then Fault(HexDigitExpected, i + 2)
    else if HexIndex(s[i + 2]) < 0 then Fault(HexDigitExpected, i + 3)
    else Fault(HexDigitExpected, i + 4)
  }

  function UnicodeFault(s: string): Fault {
    if CodeUnit(Slice(s, 2, 6)).None? then UnitFault(s, 2)
    else if |s| < 12 then Fault(SixCharactersExpected, 6)
    else if s[6] != BACKSLASH then Fault(SecondHalfExpected, 7)
    else if s[7] != 'u' then Fault(SecondHalfExpected, 8)
    else UnitFault(s, 8)
  }

  /** The first bad escape of a text that has one. */
  function FirstFault(s: string): Fault
    requires Unescape(s).None?
    decreases |s|
  {
    if s[0] != BACKSLASH then Later(1, FirstFault(s[1..]))
    else if |s| == 1 then Fault(EmptyEscape, 1)
    else if s[1] == 'u' then
      var part := UnicodePart(s);
      if part.None? then UnicodeFault(s) else Later(part.value.1, FirstFault(s[part.value.1..]))
    else if LetterMeaning(s[1]).None? then Fault(BadEscape, 2)
    else Later(2, FirstFault(s[2..]))
  }

  lemma UnitFaultAgrees(doc: string, p: nat, end: nat, i: nat)
    requires p + i <= end <= |doc| && CodeUnit(Slice(doc[p..end], i, i + 4)).None?
    ensures var fault := UnitFault(doc[p..end], i); EscapeSequence(doc, p + i, end) == Broken(fault.error, p + fault.offset)
  {
    hide HexIndex, HexValue;
    var s, q := doc[p..end], p + i;
    if end - q >= 4 {
      assert s[i] == doc[q] && s[i + 1] == doc[q + 1] && s[i + 2] == doc[q + 2] && s[i + 3] == doc[q + 3];
      HexValueIsIndex(doc[q]);
      HexValueIsIndex(doc[q + 1]);
      HexValueIsIndex(doc[q + 2]);
      HexValueIsIndex(doc[q + 3]);
      var a, b := HexValue(doc[q]), HexValue(doc[q + 1]);
      if a >= 0 && b >= 0 {
        var c := HexValue(doc[q + 2]);
        assert ReadHex(doc, q, 4, 0) == ReadHex(doc, q + 1, 3, a) == ReadHex(doc, q + 2, 2, a * 16 + b);
        assert c >= 0 ==> ReadHex(doc, q + 2, 2, a * 16 + b) == ReadHex(doc, q + 3, 1, (a * 16 + b) * 16 + c);
      } else if a >= 0 {
        assert ReadHex(doc, q, 4, 0) == ReadHex(doc, q + 1, 3, a);
      }
    }
  }

  lemma UnicodeFaultAgrees(doc: string, p: nat, end: nat)
    requires p + 2 <= end <= |doc| && UnicodePart(doc[p..end]).None?
    ensures var fault := UnicodeFault(doc[p..end]); EscapedCodePoint(doc, p + 2, end) == Broken(fault.error, p + fault.offset)
  {
    hide CodeUnit, EscapeSequence, UnitFault;
    var s := doc[p..end];
    assert Slice(s, 2, 6) == Slice(doc[p + 2..end], 0, 4);
    UnitAgrees(doc, p + 2, end);
    if CodeUnit(Slice(s, 2, 6)).None? {
      UnitFaultAgrees(doc, p, end, 2);
    } else if end - p >= 12 {
      assert Slice(s, 6, 8) == [s[6], s[7]] && s[6] == doc[p + 6] && s[7] == doc[p + 7];
      if s[6] == BACKSLASH && s[7] == 'u' { UnitFaultAgrees(doc, p, end, 8); }
    }
  }

  /** decodeString reports the first bad escape, at the place it goes wrong. */
  lemma {:induction false} FaultsAgree(doc: string, p: nat, end: nat)
    requires p <= end <= |doc| && Unescape(doc[p..end]).None?
    ensures var fault := FirstFault(doc[p..end]); DecodeChars(doc, p, end) == Undecodable(fault.error, p + fault.offset)
    decreases end - p
  {
    hide EscapedCodePoint, UnicodePart, UnicodeFault, Utf8, SimpleEscape, LetterMeaning;
    var s := doc[p..end];
    assert s[0] == doc[p];
    if doc[p] != BACKSLASH {
      assert s[1..] == doc[p + 1..end];
      FaultsAgree(doc, p + 1, end);
    } else if p + 1 < end {
      assert s[1] == doc[p + 1];
      if doc[p + 1] == 'u' {
        PartAgrees(doc, p, end);
        var part := UnicodePart(s);
        if part.Some? {
          assert s[part.value.1..] == doc[p + part.value.1..end];
          FaultsAgree(doc, p + part.value.1, end);
        } else {
          UnicodeFaultAgrees(doc, p, end);
        }
      } else {
        assert s[2..] == doc[p + 2..end];
        LettersAgree(doc[p + 1]);
        if LetterMeaning(s[1]).Some? { FaultsAgree(doc, p + 2, end); }
      }
    }
  }
}
