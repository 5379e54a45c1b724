/** Strings: quoting, string tokens, escape decoding and UTF-8 output.

    Positions are offsets into the document; `TextAt` says which text stands at one. */
module JsonString {
  import opened JsonValue
  import opened JsonNumber

  const QUOTE: char := '\"'
  const BACKSLASH: char := '\\'
  const BACKSPACE: char := '\U{8}'
  const FORM_FEED: char := '\U{C}'

  ghost predicate TextAt(doc: string, p: nat, t: string)
    ensures TextAt(doc, p, t) ==> p + |t| <= |doc|
  {
    p + |t| <= |doc| && doc[p..p + |t|] == t
  }

  lemma TextAtSplit(doc: string, p: nat, a: string, b: string)
    requires TextAt(doc, p, a + b)
    ensures TextAt(doc, p, a) && TextAt(doc, p + |a|, b)
  {
    var t := doc[p..p + |a + b|];
    assert doc[p..p + |a|] == t[..|a|] == a;
    assert doc[p + |a|..p + |a| + |b|] == t[|a|..] == b;
  }

  lemma TextAtChar(doc: string, p: nat, t: string, i: nat)
    requires TextAt(doc, p, t) && i < |t|
    ensures doc[p + i] == t[i]
  {
    assert doc[p..p + |t|][i] == doc[p + i];
  }

  // ----- codePointToUTF8 -----------------------------------------------------------------

  function Byte(n: nat): (c: char)
    requires n < 256
    ensures c as int == n
  {
    n as char
  }

  /** codePointToUTF8; masks and shifts are written as remainders and quotients. */
  function Utf8(cp: nat): string {
    if cp <= 0x7F then [Byte(cp)]
    else if cp <= 0x7FF then [Byte(0xC0 + cp / 0x40), Byte(0x80 + cp % 0x40)]
    else if cp <= 0xFFFF then
      [Byte(0xE0 + cp / 0x1000), Byte(0x80 + cp / 0x40 % 0x40), Byte(0x80 + cp % 0x40)]
    else if cp <= 0x10FFFF then
      [Byte(0xF0 + cp / 0x40000), Byte(0x80 + cp / 0x1000 % 0x40),
       Byte(0x80 + cp / 0x40 % 0x40), Byte(0x80 + cp % 0x40)]
    else []
  }

  /** The masks and shifts of codePointToUTF8 are the sums, quotients and remainders above. */
  lemma Utf8Masks(cp: bv32)
    requires cp <= 0x10FFFF
    ensures 0x80 | (0x3f & cp) == 0x80 + cp % 0x40
    ensures cp <= 0x7FF ==> 0xC0 | (0x1f & (cp >> 6)) == 0xC0 + cp / 0x40
    ensures 0x80 | (0x3f & (cp >> 6)) == 0x80 + cp / 0x40 % 0x40
    ensures cp <= 0xFFFF ==> 0xE0 | (0xf & (cp >> 12)) == 0xE0 + cp / 0x1000
    ensures 0x80 | (0x3f & (cp >> 12)) == 0x80 + cp / 0x1000 % 0x40
    ensures 0xF0 | (0x7 & (cp >> 18)) == 0xF0 + cp / 0x40000
  {
  }

  /** Those of decodeUnicodeCodePoint. */
  lemma SurrogateMasks(u: bv32)
    ensures (u & 0x3FF) << 10 == u % 0x400 * 0x400 && u & 0x3FF == u % 0x400
  {
  }

  datatype Sequence = Sequence(code: int, length: nat)

  predicate Continuation(c: char) { 0x80 <= c as int < 0xC0 }

  /** The bit layout of section 3 of RFC 3629, read from the front of a byte string. */
  function Utf8Layout(s: string): Option<Sequence> {
    if |s| >= 1 && s[0] as int < 0x80 then Some(Sequence(s[0] as int, 1))
    else if |s| >= 2 && 0xC0 <= s[0] as int < 0xE0 && Continuation(s[1]) then
      Some(Sequence((s[0] as int - 0xC0) * 0x40 + (s[1] as int - 0x80), 2))
    else if |s| >= 3 && 0xE0 <= s[0] as int < 0xF0 && Continuation(s[1]) && Continuation(s[2]) then
      Some(Sequence((s[0] as int - 0xE0) * 0x1000 + (s[1] as int - 0x80) * 0x40 + (s[2] as int - 0x80), 3))
    else if |s| >= 4 && 0xF0 <= s[0] as int < 0xF8
            && Continuation(s[1]) && Continuation(s[2]) && Continuation(s[3]) then
      Some(Sequence((s[0] as int - 0xF0) * 0x40000 + (s[1] as int - 0x80) * 0x1000
                    + (s[2] as int - 0x80) * 0x40 + (s[3] as int - 0x80), 4))
    else None
  }

  lemma ThreeSextets(cp: nat)
    requires cp <= 0xFFFF
    ensures cp / 0x1000 < 0x10 && cp / 0x40 % 0x40 < 0x40
    ensures cp / 0x1000 * 0x1000 + cp / 0x40 % 0x40 * 0x40 + cp % 0x40 == cp
  {
  }

  lemma FourSextets(cp: nat)
    requires cp <= 0x10FFFF
    ensures cp / 0x40000 < 5 && cp / 0x1000 % 0x40 < 0x40 && cp / 0x40 % 0x40 < 0x40
    ensures cp / 0x40000 * 0x40000 + cp / 0x1000 % 0x40 * 0x1000 + cp / 0x40 % 0x40 * 0x40 + cp % 0x40 == cp
  {
  }

  lemma LayoutIgnoresTail(s: string, tail: string)
    requires Utf8Layout(s).Some?
    ensures Utf8Layout(s + tail) == Utf8Layout(s)
  {
  }

  lemma Utf8Layouts(cp: nat)
    requires cp <= 0x10FFFF
    ensures Utf8Layout(Utf8(cp)) == Some(Sequence(cp, |Utf8(cp)|))
  {
    if cp > 0xFFFF {
      FourSextets(cp);
    } else if cp > 0x7FF {
      ThreeSextets(cp);
    }
  }

  /** Reading the layout undoes codePointToUTF8 whatever bytes follow. */
  lemma Utf8Inverse(cp: nat, tail: string)
    requires cp <= 0x10FFFF
    ensures |Utf8(cp)| > 0
    ensures Utf8Layout(Utf8(cp) + tail) == Some(Sequence(cp, |Utf8(cp)|))
  {
    Utf8Layouts(cp);
    LayoutIgnoresTail(Utf8(cp), tail);
  }

  /** No encoding is a prefix of another one, so in particular no two code points share one. */
  lemma Utf8PrefixFree(a: nat, b: nat)
    requires a <= 0x10FFFF && b <= 0x10FFFF
    requires Utf8(a) <= Utf8(b)
    ensures a == b
  {
    var tail := Utf8(b)[|Utf8(a)|..];
    assert Utf8(b) == Utf8(a) + tail;
    Utf8Inverse(a, tail);
    Utf8Inverse(b, []);
    assert Utf8(b) + [] == Utf8(b);
  }

  // ----- decodeUnicodeEscapeSequence, decodeUnicodeCodePoint -------------------------------

  datatype StringError =
    | EmptyEscape | BadEscape | FourDigitsExpected | HexDigitExpected
    | SixCharactersExpected | SecondHalfExpected

  /** A code point and the position behind it, or an error and the position it is reported at. */
  datatype Escape = Escape(code: nat, next: nat) | Broken(error: StringError, extra: nat)

  /** The value of a hexadecimal digit, or -1. */
  function HexValue(c: char): (v: int)
    ensures -1 <= v < 16
  {
    if '0' <= c <= '9' then c as int - '0' as int
    else if 'a' <= c <= 'f' then c as int - 'a' as int + 10
    else if 'A' <= c <= 'F' then c as int - 'A' as int + 10
    else -1
  }

  function ReadHex(doc: string, p: nat, n: nat, acc: nat): (r: Escape)
    requires p + n <= |doc|
    ensures r.Escape? ==> r.next == p + n
    decreases n
  {
    if n == 0 then Escape(acc, p)
    else if HexValue(doc[p]) < 0 then Broken(HexDigitExpected, p + 1)
    else ReadHex(doc, p + 1, n - 1, acc * 16 + HexValue(doc[p]))
  }

  function EscapeSequence(doc: string, p: nat, end: nat): (r: Escape)
    requires p <= end <= |doc|
    ensures r.Escape? ==> r.next == p + 4 <= end && r.code <= 0xFFFF
  {
    if end - p < 4 then Broken(FourDigitsExpected, p)
    else ReadHexBound(doc, p, 4, 0, 1); ReadHex(doc, p, 4, 0)
  }

  predicate HighSurrogate(u: nat) { 0xD800 <= u <= 0xDBFF }

  function EscapedCodePoint(doc: string, p: nat, end: nat): (r: Escape)
    requires p <= end <= |doc|
    ensures r.Escape? ==> p < r.next <= end && r.code <= 0x10FFFF
  {
    var first := EscapeSequence(doc, p, end);
    if first.Broken? || !HighSurrogate(first.code) then first
    else
      var q := first.next;
      if end - q < 6 then Broken(SixCharactersExpected, q)
      else if doc[q] != BACKSLASH then Broken(SecondHalfExpected, q + 1)
      else if doc[q + 1] != 'u' then Broken(SecondHalfExpected, q + 2)
      else
        var second := EscapeSequence(doc, q + 2, end);
        if second.Broken? then second
        else Escape(0x10000 + first.code % 0x400 * 0x400 + second.code % 0x400, second.next)
  }

  lemma {:induction false} ReadHexBound(doc: string, p: nat, n: nat, acc: nat, scale: nat)
    requires p + n <= |doc| && acc < scale
    ensures ReadHex(doc, p, n, acc).Escape? ==> ReadHex(doc, p, n, acc).code < scale * Pow16(n)
    decreases n
  {
    if n > 0 && HexValue(doc[p]) >= 0 {
      ReadHexBound(doc, p + 1, n - 1, acc * 16 + HexValue(doc[p]), scale * 16);
      assert scale * 16 * Pow16(n - 1) == scale * Pow16(n);
    }
  }

  function Pow16(n: nat): nat { if n == 0 then 1 else 16 * Pow16(n - 1) }

  const LOWER_HEX: string := "0123456789abcdef"
  const UPPER_HEX: string := "0123456789ABCDEF"

  /** The position of the first `c` in `s`, or -1. */
  function IndexIn(c: char, s: string): (i: int)
    ensures -1 <= i < |s|
    ensures i >= 0 ==> s[i] == c
    ensures i == -1 ==> c !in s
  {
    if s == "" then -1
    else if s[0] == c then 0
    else
      var i := IndexIn(c, s[1..]);
      if i < 0 then -1 else i + 1
  }

  /** A hexadecimal digit is its position among the digits in one case or the other. */
  function HexIndex(c: char): (d: int)
    ensures -1 <= d < 16
  {
    HexLengths();
    if IndexIn(c, LOWER_HEX) >= 0 then IndexIn(c, LOWER_HEX) else IndexIn(c, UPPER_HEX)
  }

  lemma HexLengths()
    ensures |LOWER_HEX| == 16 && |UPPER_HEX| == 16
    ensures forall i :: 0 <= i < 16 ==> LOWER_HEX[i] as int == if i < 10 then '0' as int + i else 'a' as int + i - 10
    ensures forall i :: 0 <= i < 16 ==> UPPER_HEX[i] as int == if i < 10 then '0' as int + i else 'A' as int + i - 10
  {
  }

  lemma HexValueIsIndex(c: char)
    ensures HexValue(c) == HexIndex(c)
  {
    HexLengths();
    var v := HexValue(c);
    assert v >= 0 ==> LOWER_HEX[v] == c || UPPER_HEX[v] == c;
  }

  /** `t` is four hexadecimal digits, in either case, that spell `n`. */
  predicate Spells(t: string, n: nat) {
    |t| == 4 && (forall i :: 0 <= i < 4 ==> HexIndex(t[i]) >= 0) &&
    n == HexIndex(t[0]) * 0x1000 + HexIndex(t[1]) * 0x100 + HexIndex(t[2]) * 0x10 + HexIndex(t[3])
  }

  lemma SpelledValues(t: string, n: nat)
    requires Spells(t, n)
    ensures |t| == 4 && forall i :: 0 <= i < 4 ==> HexValue(t[i]) >= 0
    ensures n == HexValue(t[0]) * 0x1000 + HexValue(t[1]) * 0x100 + HexValue(t[2]) * 0x10 + HexValue(t[3])
  {
    hide HexValue, HexIndex;
    HexValueIsIndex(t[0]);
    HexValueIsIndex(t[1]);
    HexValueIsIndex(t[2]);
    HexValueIsIndex(t[3]);
  }

  lemma SpelledSequence(doc: string, p: nat, end: nat, t: string, n: nat)
    requires Spells(t, n) && TextAt(doc, p, t) && p + 4 <= end <= |doc|
    ensures EscapeSequence(doc, p, end) == Escape(n, p + 4)
  {
    hide Spells, TextAt;
    SpelledValues(t, n);
    TextAtChar(doc, p, t, 0);
    TextAtChar(doc, p, t, 1);
    TextAtChar(doc, p, t, 2);
    TextAtChar(doc, p, t, 3);
    var a, b, c, d := HexValue(doc[p]), HexValue(doc[p + 1]), HexValue(doc[p + 2]), HexValue(doc[p + 3]);
    calc {
      ReadHex(doc, p, 4, 0);
      ReadHex(doc, p + 1, 3, a);
      ReadHex(doc, p + 2, 2, a * 16 + b);
      ReadHex(doc, p + 3, 1, (a * 16 + b) * 16 + c);
      ReadHex(doc, p + 4, 0, ((a * 16 + b) * 16 + c) * 16 + d);
      Escape(n, p + 4);
    }
  }

  lemma SurrogateArithmetic(cp: nat)
    requires 0x10000 <= cp <= 0x10FFFF
    ensures var high, low := 0xD800 + (cp - 0x10000) / 0x400, 0xDC00 + (cp - 0x10000) % 0x400;
      HighSurrogate(high) && 0x10000 + high % 0x400 * 0x400 + low % 0x400 == cp
  {
    var n := cp - 0x10000;
    assert (0xD800 + n / 0x400) % 0x400 == n / 0x400;
    assert (0xDC00 + n % 0x400) % 0x400 == n % 0x400;
  }

  lemma SpellsFour(high: string, low: string, cp: nat)
    requires 0x10000 <= cp
    requires Spells(high, 0xD800 + (cp - 0x10000) / 0x400) && Spells(low, 0xDC00 + (cp - 0x10000) % 0x400)
    ensures |high| == 4 && |low| == 4
  {
  }

  lemma SecondHalf(doc: string, p: nat, end: nat, high: nat, low: nat)
    requires p + 10 <= end <= |doc|
    requires EscapeSequence(doc, p, end) == Escape(high, p + 4) && HighSurrogate(high)
    requires doc[p + 4] == BACKSLASH && doc[p + 5] == 'u'
    requires EscapeSequence(doc, p + 6, end) == Escape(low, p + 10)
    ensures EscapedCodePoint(doc, p, end) == Escape(0x10000 + high % 0x400 * 0x400 + low % 0x400, p + 10)
  {
  }

  /** A supplementary code point written as a surrogate pair of escapes decodes to itself. */
  lemma SurrogatePairDecodes(doc: string, p: nat, end: nat, high: string, low: string, cp: nat)
    requires 0x10000 <= cp <= 0x10FFFF
    requires Spells(high, 0xD800 + (cp - 0x10000) / 0x400) && Spells(low, 0xDC00 + (cp - 0x10000) % 0x400)
    requires TextAt(doc, p, high + ([BACKSLASH, 'u'] + low)) && p + 10 <= end <= |doc|
    ensures EscapedCodePoint(doc, p, end) == Escape(cp, p + 10)
  {
    hide EscapedCodePoint, EscapeSequence, Spells;
    var u := [BACKSLASH, 'u'];
    assert |high| == 4 && |low| == 4 by { SpellsFour(high, low, cp); }
    TextAtSplit(doc, p, high, u + low);
    TextAtSplit(doc, p + 4, u, low);
    TextAtChar(doc, p + 4, u, 0);
    TextAtChar(doc, p + 4, u, 1);
    var h, l := 0xD800 + (cp - 0x10000) / 0x400, 0xDC00 + (cp - 0x10000) % 0x400;
    SpelledSequence(doc, p, end, high, h);
    SpelledSequence(doc, p + 6, end, low, l);
    SurrogateArithmetic(cp);
    SecondHalf(doc, p, end, h, l);
  }

  // ----- decodeString --------------------------------------------------------------------

  datatype Decoded = Decoded(text: string) | Undecodable(error: StringError, extra: nat)

  /** The byte a one-letter escape stands for. */
  function SimpleEscape(c: char): Option<char> {
    if c == QUOTE then Some(QUOTE)
    else if c == '/' then Some('/')
    else if c == BACKSLASH then Some(BACKSLASH)
    else if c == 'b' then Some(BACKSPACE)
    else if c == 'f' then Some(FORM_FEED)
    else if c == 'n' then Some('\n')
    else if c == 'r' then Some('\r')
    else if c == 't' then Some('\t')
    else None
  }

  function Prepend(s: string, d: Decoded): Decoded {
    if d.Decoded? then Decoded(s + d.text) else d
  }

  /** decodeString's walk over the characters between the quotes. */
  function DecodeChars(doc: string, p: nat, end: nat): Decoded
    requires p <= end <= |doc|
    decreases end - p
  {
    if p == end || doc[p] == QUOTE then Decoded([])
    else if doc[p] != BACKSLASH then Prepend([doc[p]], DecodeChars(doc, p + 1, end))
    else if p + 1 == end then Undecodable(EmptyEscape, p + 1)
    else if doc[p + 1] == 'u' then
      var e := EscapedCodePoint(doc, p + 2, end);
      if e.Broken? then Undecodable(e.error, e.extra)
      else Prepend(Utf8(e.code), DecodeChars(doc, e.next, end))
    else if SimpleEscape(doc[p + 1]).None? then Undecodable(BadEscape, p + 2)
    else Prepend([SimpleEscape(doc[p + 1]).value], DecodeChars(doc, p + 2, end))
  }

  // ----- readString ----------------------------------------------------------------------

  datatype Scan = Scan(ok: bool, next: nat)

  /** readString and readStringSingleQuote: up to and including the first unescaped quote. */
  function ScanString(doc: string, p: nat, quote: char): (r: Scan)
    requires p <= |doc|
    ensures p <= r.next <= |doc| && (r.ok ==> p < r.next)
    decreases |doc| - p
  {
    if p == |doc| then Scan(false, p)
    else if doc[p] == BACKSLASH then ScanString(doc, if p + 2 <= |doc| then p + 2 else p + 1, quote)
    else if doc[p] == quote then Scan(true, p + 1)
    else ScanString(doc, p + 1, quote)
  }

  // ----- valueToQuotedStringN --------------------------------------------------------------

  predicate IsControl(c: char) { NUL < c <= '\U{1F}' }

  function HexChar(n: nat): (c: char)
    requires n < 16
    ensures HexValue(c) == n
  {
    if n < 10 then (n + '0' as int) as char else (n - 10 + 'A' as int) as char
  }

  /** A control byte printed by `hex << uppercase << setfill('0') << setw(4)`. */
  function FourHexDigits(n: nat): (t: string)
    requires n <= 0xFF
    ensures |t| == 4
  {
    ['0', '0', HexChar(n / 16), HexChar(n % 16)]
  }

  lemma FourHexSpells(n: nat)
    requires n <= 0xFF
    ensures Spells(FourHexDigits(n), n)
  {
    hide HexIndex;
    HexValueIsIndex('0');
    HexValueIsIndex(HexChar(n / 16));
    HexValueIsIndex(HexChar(n % 16));
  }

  /** The escape letter for a byte that has one. */
  function EscapeLetter(c: char): Option<char> {
    if c == QUOTE then Some(QUOTE)
    else if c == BACKSLASH then Some(BACKSLASH)
    else if c == BACKSPACE then Some('b')
    else if c == FORM_FEED then Some('f')
    else if c == '\n' then Some('n')
    else if c == '\r' then Some('r')
    else if c == '\t' then Some('t')
    else None
  }

  function EscapedChar(c: char): (t: string)
    ensures |t| > 0
  {
    if EscapeLetter(c).Some? then [BACKSLASH, EscapeLetter(c).value]
    else if IsControl(c) || c == NUL then "\\u" + FourHexDigits(c as int)
    else [c]
  }

  function EscapedText(s: string): string {
    if s == [] then [] else EscapedChar(s[0]) + EscapedText(s[1..])
  }

  function Quoted(s: string): string {
    [QUOTE] + EscapedText(s) + [QUOTE]
  }

  predicate Plain(c: char) { EscapeLetter(c).None? && !IsControl(c) && c != NUL }

  lemma {:induction false} PlainTextIsUnchanged(s: string)
    requires forall i :: 0 <= i < |s| ==> Plain(s[i])
    ensures EscapedText(s) == s
  {
    if s != [] {
      assert forall i :: 0 <= i < |s[1..]| ==> s[1..][i] == s[i + 1];
      PlainTextIsUnchanged(s[1..]);
      assert Plain(s[0]);
    }
  }

  lemma {:induction false} EscapedTextSnoc(s: string, c: char)
    ensures EscapedText(s + [c]) == EscapedText(s) + EscapedChar(c)
  {
    if s == [] {
      assert s + [c] == [c];
      assert EscapedText([c]) == EscapedChar(c) + EscapedText([c][1..]);
    } else {
      assert (s + [c])[1..] == s[1..] + [c];
      EscapedTextSnoc(s[1..], c);
    }
  }

  /** strnpbrk: whether one of the escaped bytes occurs among the first `n`. */
  method HasEscapeLetter(s: string, n: nat) returns (found: bool)
    requires n <= |s|
    ensures found <==> exists i :: 0 <= i < n && EscapeLetter(s[i]).Some?
  {
    for i := 0 to n
      invariant forall j :: 0 <= j < i ==> EscapeLetter(s[j]).None?
    {
      if EscapeLetter(s[i]).Some? { return true; }
    }
    found := false;
  }

  /** containsControlCharacter0. */
  method HasControlOrNul(s: string, n: nat) returns (found: bool)
    requires n <= |s|
    ensures found <==> exists i :: 0 <= i < n && (IsControl(s[i]) || s[i] == NUL)
  {
    for i := 0 to n
      invariant forall j :: 0 <= j < i ==> !IsControl(s[j]) && s[j] != NUL
    {
      if IsControl(s[i]) || s[i] == NUL { return true; }
    }
    found := false;
  }

  lemma TerminatedPrefix(buffer: string, length: nat)
    requires length < |buffer| && buffer[length] == NUL
    requires NUL !in buffer[..length]
    ensures CString(buffer) == buffer[..length]
  {
    var s, tail := buffer[..length], buffer[length + 1..];
    assert buffer == s + [NUL] + tail;
    CStringOfTerminated(s, tail);
  }

  lemma PlainBuffer(buffer: string, length: nat)
    requires length < |buffer| && buffer[length] == NUL
    requires forall i :: 0 <= i < length ==> Plain(buffer[i])
    ensures Quoted(buffer[..length]) == [QUOTE] + CString(buffer) + [QUOTE]
  {
    var s := buffer[..length];
    assert forall i :: 0 <= i < |s| ==> Plain(s[i]);
    TerminatedPrefix(buffer, length);
    PlainTextIsUnchanged(s);
  }

  /** The walk that escapes byte by byte. */
  method EscapeWalk(buffer: string, length: nat) returns (result: string)
    requires length <= |buffer|
    ensures result == Quoted(buffer[..length])
  {
    hide EscapedChar;
    result := [QUOTE];
    for i := 0 to length
      invariant result == [QUOTE] + EscapedText(buffer[..i])
    {
      EscapedTextSnoc(buffer[..i], buffer[i]);
      assert buffer[..i + 1] == buffer[..i] + [buffer[i]];
      result := result + EscapedChar(buffer[i]);
    }
    result := result + [QUOTE];
  }

  /** valueToQuotedStringN on a buffer of `length` bytes and their NUL terminator.  The short
      cut appends the buffer as a C string. */
  method QuoteN(buffer: string, length: nat) returns (result: string)
    requires length < |buffer| && buffer[length] == NUL
    ensures result == Quoted(buffer[..length])
  {
    var special := HasEscapeLetter(buffer, length);
    var control := HasControlOrNul(buffer, length);
    if !special && !control {
      PlainBuffer(buffer, length);
      result := [QUOTE] + CString(buffer) + [QUOTE];
    } else {
      result := EscapeWalk(buffer, length);
    }
  }

  /** strlen. */
  method Strlen(buffer: string) returns (n: nat)
    requires NUL in buffer
    ensures n == |CString(buffer)|
  {
    n := 0;
    while buffer[n] != NUL
      invariant 0 <= n <= |CString(buffer)|
      decreases |CString(buffer)| - n
    {
      n := n + 1;
    }
  }

  /** valueToQuotedString: the C-string form used for StyledWriter's member names. */
  method QuoteCString(buffer: string) returns (result: string)
    requires NUL in buffer
    ensures result == Quoted(CString(buffer))
  {
    var n := Strlen(buffer);
    result := QuoteN(buffer, n);
  }

  // ----- quoting and decoding are inverse --------------------------------------------------

  lemma ScanOne(doc: string, p: nat, c: char)
    requires TextAt(doc, p, EscapedChar(c))
    ensures ScanString(doc, p, QUOTE) == ScanString(doc, p + |EscapedChar(c)|, QUOTE)
  {
    var e := EscapedChar(c);
    TextAtChar(doc, p, e, 0);
    if EscapeLetter(c).None? && (IsControl(c) || c == NUL) { ScanUnicodeEscape(doc, p, e, c); }
  }

  /** A string token: the scanner stops exactly behind the closing quote of quoted text. */
  lemma {:induction false} ScanEscaped(doc: string, p: nat, s: string)
    requires TextAt(doc, p, EscapedText(s) + [QUOTE])
    ensures ScanString(doc, p, QUOTE) == Scan(true, p + |EscapedText(s)| + 1)
    decreases |s|
  {
    hide EscapedText, EscapedChar, ScanString, TextAt;
    EscapedTextParts(s);
    if s == [] {
      assert EscapedText(s) + [QUOTE] == [QUOTE];
      ScanClosing(doc, p);
    } else {
      EscapedTextAt(doc, p, s, [QUOTE]);
      ScanOne(doc, p, s[0]);
      ScanEscaped(doc, p + |EscapedChar(s[0])|, s[1..]);
    }
  }

  lemma ScanClosing(doc: string, p: nat)
    requires TextAt(doc, p, [QUOTE])
    ensures ScanString(doc, p, QUOTE) == Scan(true, p + 1)
  {
    TextAtChar(doc, p, [QUOTE], 0);
  }

  lemma EscapedTextAt(doc: string, p: nat, s: string, tail: string)
    requires s != [] && TextAt(doc, p, EscapedText(s) + tail)
    ensures TextAt(doc, p, EscapedChar(s[0]))
    ensures TextAt(doc, p + |EscapedChar(s[0])|, EscapedText(s[1..]) + tail)
    ensures |EscapedText(s)| == |EscapedChar(s[0])| + |EscapedText(s[1..])|
  {
    hide EscapedText, EscapedChar, TextAt;
    EscapedTextParts(s);
    SplitThree(doc, p, EscapedChar(s[0]), EscapedText(s[1..]), tail);
  }

  lemma SplitThree(doc: string, p: nat, a: string, b: string, c: string)
    requires TextAt(doc, p, a + b + c)
    ensures TextAt(doc, p, a) && TextAt(doc, p + |a|, b + c)
  {
    assert a + b + c == a + (b + c);
    TextAtSplit(doc, p, a, b + c);
  }

  lemma ScanUnicodeEscape(doc: string, p: nat, e: string, c: char)
    requires IsControl(c) || c == NUL
    requires TextAt(doc, p, e) && e == "\\u" + FourHexDigits(c as int)
    ensures ScanString(doc, p, QUOTE) == ScanString(doc, p + 6, QUOTE)
  {
    var t := FourHexDigits(c as int);
    TextAtSplit(doc, p, "\\u", t);
    TextAtChar(doc, p, "\\u", 0);
    assert HexValue(QUOTE) < 0 && HexValue(BACKSLASH) < 0;
    TextAtChar(doc, p + 2, t, 0);
    TextAtChar(doc, p + 2, t, 1);
    TextAtChar(doc, p + 2, t, 2);
    TextAtChar(doc, p + 2, t, 3);
    calc {
      ScanString(doc, p, QUOTE);
      ScanString(doc, p + 2, QUOTE);
      ScanString(doc, p + 3, QUOTE);
      ScanString(doc, p + 4, QUOTE);
      ScanString(doc, p + 5, QUOTE);
      ScanString(doc, p + 6, QUOTE);
    }
  }

  lemma SplitFour(doc: string, p: nat, a: string, b: string, c: string, d: string)
    requires TextAt(doc, p, a + b + c + d)
    ensures TextAt(doc, p, a) && TextAt(doc, p + |a|, b + c + d)
  {
    assert a + b + c + d == a + (b + c + d);
    TextAtSplit(doc, p, a, b + c + d);
  }

  /** Decoding the characters of quoted text gives back the bytes that were quoted. */
  lemma {:induction false} DecodeEscaped(doc: string, p: nat, s: string)
    requires TextAt(doc, p, EscapedText(s))
    ensures DecodeChars(doc, p, p + |EscapedText(s)|) == Decoded(s)
    decreases |s|
  {
    hide EscapedChar, EscapedText, DecodeChars, TextAt;
    EscapedTextParts(s);
    if s == [] {
      DecodeNothing(doc, p);
    } else {
      var first, rest := EscapedChar(s[0]), EscapedText(s[1..]);
      TextAtSplit(doc, p, first, rest);
      DecodeEscaped(doc, p + |first|, s[1..]);
      DecodeStep(doc, p, p + |first| + |rest|, s);
    }
  }

  lemma EscapedTextParts(s: string)
    ensures EscapedText(s) == if s == [] then [] else EscapedChar(s[0]) + EscapedText(s[1..])
  {
  }

  lemma DecodeNothing(doc: string, p: nat)
    requires p <= |doc|
    ensures DecodeChars(doc, p, p) == Decoded([])
  {
  }

  lemma DecodeStep(doc: string, p: nat, end: nat, s: string)
    requires s != [] && TextAt(doc, p, EscapedChar(s[0])) && p + |EscapedChar(s[0])| <= end <= |doc|
    requires DecodeChars(doc, p + |EscapedChar(s[0])|, end) == Decoded(s[1..])
    ensures DecodeChars(doc, p, end) == Decoded(s)
  {
    hide DecodeChars, EscapedChar, TextAt;
    DecodeOne(doc, p, end, s[0]);
    assert [s[0]] + s[1..] == s;
  }

  lemma DecodeOne(doc: string, p: nat, end: nat, c: char)
    requires TextAt(doc, p, EscapedChar(c)) && p + |EscapedChar(c)| <= end <= |doc|
    ensures DecodeChars(doc, p, end) == Prepend([c], DecodeChars(doc, p + |EscapedChar(c)|, end))
  {
    hide DecodeChars, TextAt;
    if EscapeLetter(c).Some? {
      DecodeLetter(doc, p, end, c);
    } else if IsControl(c) || c == NUL {
      FourHexSpells(c as int);
      DecodeUnicode(doc, p, end, c, FourHexDigits(c as int));
    } else {
      DecodePlain(doc, p, end, c);
    }
  }

  lemma DecodePlain(doc: string, p: nat, end: nat, c: char)
    requires EscapeLetter(c).None? && TextAt(doc, p, [c]) && p + 1 <= end <= |doc|
    ensures DecodeChars(doc, p, end) == Prepend([c], DecodeChars(doc, p + 1, end))
  {
    hide EscapedCodePoint, Utf8, SimpleEscape;
    TextAtChar(doc, p, [c], 0);
  }

  lemma LetterMeans(c: char)
    requires EscapeLetter(c).Some?
    ensures SimpleEscape(EscapeLetter(c).value) == Some(c) && EscapeLetter(c).value != 'u'
  {
  }

  lemma DecodeLetter(doc: string, p: nat, end: nat, c: char)
    requires EscapeLetter(c).Some? && TextAt(doc, p, [BACKSLASH, EscapeLetter(c).value]) && p + 2 <= end <= |doc|
    ensures DecodeChars(doc, p, end) == Prepend([c], DecodeChars(doc, p + 2, end))
  {
    hide TextAt, EscapeLetter, SimpleEscape, EscapedCodePoint, Utf8;
    LetterMeans(c);
    var e := [BACKSLASH, EscapeLetter(c).value];
    TextAtChar(doc, p, e, 0);
    TextAtChar(doc, p, e, 1);
  }

  lemma DecodeUnicode(doc: string, p: nat, end: nat, c: char, t: string)
    requires IsControl(c) || c == NUL
    requires Spells(t, c as int) && TextAt(doc, p, "\\u" + t) && p + 6 <= end <= |doc|
    ensures DecodeChars(doc, p, end) == Prepend([c], DecodeChars(doc, p + 6, end))
  {
    hide TextAt, Spells, EscapeSequence;
    TextAtSplit(doc, p, "\\u", t);
    TextAtChar(doc, p, "\\u", 0);
    TextAtChar(doc, p, "\\u", 1);
    SpelledSequence(doc, p + 2, end, t, c as int);
  }

  /** The quoting round trip: the scanner consumes exactly the quoted text and decoding it
      returns the original bytes, whatever they are. */
  lemma QuotingRoundTrip(doc: string, p: nat, s: string)
    requires TextAt(doc, p, Quoted(s))
    ensures var end := p + |Quoted(s)|;
      && doc[p] == QUOTE
      && ScanString(doc, p + 1, QUOTE) == Scan(true, end)
      && DecodeChars(doc, p + 1, end - 1) == Decoded(s)
  {
    hide ScanString, DecodeChars, EscapedText, TextAt;
    SplitThree(doc, p, [QUOTE], EscapedText(s), [QUOTE]);
    TextAtChar(doc, p, [QUOTE], 0);
    ScanEscaped(doc, p + 1, s);
    TextAtSplit(doc, p + 1, EscapedText(s), [QUOTE]);
    DecodeEscaped(doc, p + 1, s);
  }
}
