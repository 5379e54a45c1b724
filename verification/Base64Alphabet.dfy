/** What the base64 codec computes, in the words of section 4 of RFC 4648: the alphabet as one
    string, and a group as the digits of one 24-bit number. */
module Base64Alphabet {
  import opened Base64

  const ALPHABET: string := "ABCDEFGHIJKLMNOPQRSTUVWXYZabcdefghijklmnopqrstuvwxyz0123456789+/"

  /** The string lists consecutive characters. */
  predicate Consecutive(s: string, from: char) { forall i :: 0 <= i < |s| ==> s[i] as int == from as int + i }

  const UPPER: string := "ABCDEFGHIJKLMNOPQRSTUVWXYZ"
  const LOWER: string := "abcdefghijklmnopqrstuvwxyz"
  const DIGITS: string := "0123456789"

  lemma AlphabetStarts()
    ensures ALPHABET == UPPER + "abcdefghijklmnopqrstuvwxyz0123456789+/"
  {
  }

  lemma AlphabetEnds()
    ensures "abcdefghijklmnopqrstuvwxyz0123456789+/" == LOWER + "0123456789+/"
    ensures "0123456789+/" == DIGITS + "+/"
  {
  }

  lemma AlphabetParts()
    ensures ALPHABET == UPPER + LOWER + DIGITS + "+/"
  {
    AlphabetStarts();
    AlphabetEnds();
    Associate(UPPER, LOWER, DIGITS, "+/");
  }

  lemma Associate(a: string, b: string, c: string, d: string)
    ensures a + (b + (c + d)) == a + b + c + d
  {
  }

  lemma UpperRun()
    ensures |UPPER| == 26 && Consecutive(UPPER, 'A')
  {
  }

  lemma LowerRun()
    ensures |LOWER| == 26 && Consecutive(LOWER, 'a')
  {
  }

  lemma DigitRun()
    ensures |DIGITS| == 10 && Consecutive(DIGITS, '0')
  {
  }

  /** base64_chars[x] is character x of the alphabet. */
  lemma AlphabetAt(x: Sextet)
    ensures |ALPHABET| == 64 && CharOf(x) == ALPHABET[x]
  {
    AlphabetParts();
    UpperRun();
    LowerRun();
    DigitRun();
    PartsAt(UPPER, LOWER, DIGITS, "+/", x);
  }

  lemma PartsAt(upper: string, lower: string, digits: string, rest: string, x: Sextet)
    requires |upper| == |lower| == 26 && |digits| == 10 && rest == ['+', '/']
    requires Consecutive(upper, 'A') && Consecutive(lower, 'a') && Consecutive(digits, '0')
    ensures |upper + lower + digits + rest| == 64 && (upper + lower + digits + rest)[x] == CharOf(x)
  {
  }

  /** base64_chars.find(c) is the index of c in the alphabet, and is_base64 says whether there is one. */
  lemma IndexInAlphabet(c: char)
    ensures IsBase64(c) <==> c in ALPHABET
    ensures IsBase64(c) ==> |ALPHABET| == 64 && ALPHABET[SextetOf(c)] == c
    ensures forall i :: 0 <= i < |ALPHABET| && ALPHABET[i] == c ==> IsBase64(c) && SextetOf(c) == i
  {
    AlphabetAt(0);
    forall i | 0 <= i < 64 ensures CharOf(i) == ALPHABET[i] && SextetOf(CharOf(i)) == i {
      AlphabetAt(i);
      SextetOfChar(i);
    }
    if IsBase64(c) { assert ALPHABET[SextetOf(c)] == c; }
  }

  // ----- groups ------------------------------------------------------------------------------

  /** Digit k, counted from the right, of n written to the base 64. */
  function Digit64(n: nat, k: nat): Sextet {
    if k == 0 then n % 64 else Digit64(n / 64, k - 1)
  }

  /** The 24-bit number that three bytes form. */
  function Number(a: Byte, b: Byte, c: Byte): nat {
    (a as int) * 0x10000 + (b as int) * 0x100 + c as int
  }

  /** The four digits of a 24-bit number in the alphabet. */
  function GroupText(n: nat): string
  {
    AlphabetAt(0);
    [ALPHABET[Digit64(n, 3)], ALPHABET[Digit64(n, 2)], ALPHABET[Digit64(n, 1)], ALPHABET[Digit64(n, 0)]]
  }

  lemma GroupDigits(a: Byte, b: Byte, c: Byte)
    ensures var n := Number(a, b, c);
      Digit64(n, 3) == First(a) && Digit64(n, 2) == Second(a, b) && Digit64(n, 1) == Third(b, c) && Digit64(n, 0) == Fourth(c)
  {
    var n := Number(a, b, c);
    var n1 := (a as int) * 0x400 + (b as int) * 4 + c / 64;
    var n2 := (a as int) * 0x10 + b / 16;
    assert n == 64 * n1 + c % 64;
    Divided(n, n1, c % 64);
    assert n1 == 64 * n2 + (b % 16 * 4 + c / 64);
    Divided(n1, n2, b % 16 * 4 + c / 64);
    assert n2 == 64 * (a / 4) + (a % 4 * 16 + b / 16);
    Divided(n2, a / 4, a % 4 * 16 + b / 16);
    assert Digit64(n, 3) == Digit64(n1, 2) == Digit64(n2, 1) == Digit64(a / 4, 0);
    assert Digit64(n, 2) == Digit64(n1, 1) == Digit64(n2, 0);
    assert Digit64(n, 1) == Digit64(n1, 0);
  }

  lemma Divided(n: nat, q: nat, r: nat)
    requires n == 64 * q + r && r < 64
    ensures n / 64 == q && n % 64 == r
  {
  }

  lemma GroupChars(a: Byte, b: Byte, c: Byte)
    ensures GroupText(Number(a, b, c)) == [CharOf(First(a)), CharOf(Second(a, b)), CharOf(Third(b, c)), CharOf(Fourth(c))]
  {
    hide CharOf, First, Second, Third, Fourth, Digit64, Number;
    GroupDigits(a, b, c);
    AlphabetAt(First(a));
    AlphabetAt(Second(a, b));
    AlphabetAt(Third(b, c));
    AlphabetAt(Fourth(c));
  }

  /** Three bytes are written as the four digits of the number they form. */
  lemma EncodeWhole(s: seq<Byte>)
    requires |s| >= 3
    ensures Encode(s) == GroupText(Number(s[0], s[1], s[2])) + Encode(s[3..])
  {
    hide CharOf, First, Second, Third, Fourth, Number, GroupText;
    GroupChars(s[0], s[1], s[2]);
  }

  /** One or two bytes are written as those of the number with zero bytes added, the digits made of
      zero bits only replaced by padding. */
  lemma EncodePartial(a: Byte, b: Byte)
    ensures Encode([a, b]) == GroupText(Number(a, b, 0))[..3] + "="
    ensures Encode([a]) == GroupText(Number(a, 0, 0))[..2] + "=="
  {
    hide CharOf, First, Second, Third, Fourth, Number, GroupText;
    GroupChars(a, b, 0);
    GroupChars(a, 0, 0);
  }

  /** Four characters of the alphabet are read as the three bytes of the number whose digits they are. */
  lemma DecodeIsPositional(s: string, a: Byte, b: Byte, c: Byte)
    requires |s| >= 4 && s[..4] == GroupText(Number(a, b, c))
    ensures Decode(s) == [a, b, c] + Decode(s[4..])
  {
    hide CharOf, First, Second, Third, Fourth, GroupText, Number, ByteOne, ByteTwo, ByteThree, SextetOf;
    GroupChars(a, b, c);
    assert s[..4][0] == s[0] && s[..4][1] == s[1] && s[..4][2] == s[2] && s[..4][3] == s[3];
    SextetsOfGroup(a, b, c);
    GroupInverse(a, b, c);
    DecodeGroup(s);
  }
}
