/** base::utils::base64_encode and base64_decode (sections 3.5 and 4 of RFC 4648).

    Bytes and sextets are integers; the masks and shifts of the source are remainders and
    quotients by powers of two (see MasksAsArithmetic). */
module Base64 {

  type Byte = b: int | 0 <= b < 256
  type Sextet = x: int | 0 <= x < 64

  const PAD: char := '='

  lemma MasksAsArithmetic(x: bv8)
    ensures (x & 0xfc) >> 2 == x / 4 && (x & 0x03) << 4 == x % 4 * 16 && (x & 0xf0) >> 4 == x / 16
    ensures (x & 0x0f) << 2 == x % 16 * 4 && (x & 0xc0) >> 6 == x / 64 && x & 0x3f == x % 64
    ensures (x & 0x3) << 6 == x % 4 * 64 && (x < 64 ==> x << 2 == x * 4)
    ensures (x & 0x30) >> 4 == x / 16 % 4 && (x & 0x3c) >> 2 == x / 4 % 16 && (x & 0xf) << 4 == x % 16 * 16
  {
  }

  // ----- the alphabet ------------------------------------------------------------------------

  /** is_base64: isalnum in the C locale, plus and slash. */
  predicate IsBase64(c: char) {
    '0' <= c <= '9' || 'A' <= c <= 'Z' || 'a' <= c <= 'z' || c == '+' || c == '/'
  }

  /** base64_chars[x]. */
  function CharOf(x: Sextet): (c: char)
    ensures IsBase64(c)
  {
    if x < 26 then ('A' as int + x) as char
    else if x < 52 then ('a' as int + (x - 26)) as char
    else if x < 62 then ('0' as int + (x - 52)) as char
    else if x == 62 then '+'
    else '/'
  }

  /** base64_chars.find(c). */
  function SextetOf(c: char): (x: Sextet)
    requires IsBase64(c)
    ensures CharOf(x) == c
  {
    if 'A' <= c <= 'Z' then c as int - 'A' as int
    else if 'a' <= c <= 'z' then c as int - 'a' as int + 26
    else if '0' <= c <= '9' then c as int - '0' as int + 52
    else if c == '+' then 62
    else 63
  }

  lemma SextetOfChar(x: Sextet)
    ensures SextetOf(CharOf(x)) == x
  {
  }

  // ----- groups ------------------------------------------------------------------------------

  function First(a: Byte): Sextet { a / 4 }
  function Second(a: Byte, b: Byte): Sextet { a % 4 * 16 + b / 16 }
  function Third(b: Byte, c: Byte): Sextet { b % 16 * 4 + c / 64 }
  function Fourth(c: Byte): Sextet { c % 64 }

  function ByteOne(w: Sextet, x: Byte): Byte { w * 4 + x / 16 % 4 }
  function ByteTwo(x: Byte, y: Byte): Byte { x % 16 * 16 + y / 4 % 16 }
  function ByteThree(y: Byte, z: Sextet): Byte { y % 4 * 64 + z }

  /** A number written as high part times the base plus low part. */
  lemma Parts(high: nat, low: nat, base: nat)
    requires low < base && (base == 4 || base == 16 || base == 64)
    ensures (high * base + low) / base == high && (high * base + low) % base == low
  {
  }

  lemma GroupInverse(a: Byte, b: Byte, c: Byte)
    ensures ByteOne(First(a), Second(a, b)) == a
    ensures ByteTwo(Second(a, b), Third(b, c)) == b
    ensures ByteThree(Third(b, c), Fourth(c)) == c
  {
    Parts(a % 4, b / 16, 16);
    Parts(b % 16, c / 64, 4);
    OneOf(a, Second(a, b));
    TwoOf(b, Second(a, b), Third(b, c));
    ThreeOf(c, Third(b, c));
  }

  lemma OneOf(a: Byte, x: Sextet)
    requires x / 16 == a % 4
    ensures ByteOne(First(a), x) == a
  {
  }

  lemma TwoOf(b: Byte, x: Sextet, y: Sextet)
    requires x % 16 == b / 16 && y / 4 == b % 16
    ensures ByteTwo(x, y) == b
  {
  }

  lemma ThreeOf(c: Byte, y: Sextet)
    requires y % 4 == c / 64
    ensures ByteThree(y, Fourth(c)) == c
  {
  }

  lemma GroupForward(w: Sextet, x: Sextet, y: Sextet, z: Sextet)
    ensures var a, b, c := ByteOne(w, x), ByteTwo(x, y), ByteThree(y, z);
      First(a) == w && Second(a, b) == x && Third(b, c) == y && Fourth(c) == z
  {
    ForwardOne(w, x);
    ForwardTwo(x, y);
    ForwardThree(y, z);
    hide ByteOne, ByteTwo, ByteThree;
    SecondOf(ByteOne(w, x), ByteTwo(x, y), x);
    ThirdOf(ByteTwo(x, y), ByteThree(y, z), y);
  }

  lemma ForwardOne(w: Sextet, x: Sextet)
    ensures First(ByteOne(w, x)) == w && ByteOne(w, x) % 4 == x / 16
  {
    Parts(w, x / 16, 4);
  }

  lemma ForwardTwo(x: Sextet, y: Sextet)
    ensures ByteTwo(x, y) / 16 == x % 16 && ByteTwo(x, y) % 16 == y / 4
  {
    Parts(x % 16, y / 4, 16);
  }

  lemma ForwardThree(y: Sextet, z: Sextet)
    ensures ByteThree(y, z) / 64 == y % 4 && Fourth(ByteThree(y, z)) == z
  {
    Parts(y % 4, z, 64);
  }

  lemma SecondOf(a: Byte, b: Byte, x: Sextet)
    requires a % 4 == x / 16 && b / 16 == x % 16
    ensures Second(a, b) == x
  {
  }

  lemma ThirdOf(b: Byte, c: Byte, y: Sextet)
    requires b % 16 == y / 4 && c / 64 == y % 4
    ensures Third(b, c) == y
  {
  }

  // ----- encoding ----------------------------------------------------------------------------

  function Encode(s: seq<Byte>): string {
    if |s| == 0 then ""
    else if |s| == 1 then [CharOf(First(s[0])), CharOf(Second(s[0], 0)), PAD, PAD]
    else if |s| == 2 then [CharOf(First(s[0])), CharOf(Second(s[0], s[1])), CharOf(Third(s[1], 0)), PAD]
    else
      [CharOf(First(s[0])), CharOf(Second(s[0], s[1])), CharOf(Third(s[1], s[2])), CharOf(Fourth(s[2]))]
      + Encode(s[3..])
  }

  predicate Sextets(a: seq<Byte>) { forall j :: 0 <= j < |a| ==> a[j] < 64 }

  /** The characters of a sequence of sextets. */
  function Chars(a: seq<Byte>): string
    requires Sextets(a)
  {
    if a == [] then "" else Chars(a[..|a| - 1]) + [CharOf(a[|a| - 1])]
  }

  /** `for (j = 0; j < n; j++) ret += base64_chars[char_array_4[j]]`. */
  method AppendChars(ret: string, a: array<Byte>, n: nat) returns (r: string)
    requires n <= a.Length && Sextets(a[..n])
    ensures r == ret + Chars(a[..n])
  {
    r := ret;
    var j := 0;
    while j < n
      invariant 0 <= j <= n
      invariant Sextets(a[..j]) && r == ret + Chars(a[..j])
    {
      assert a[..j + 1][..j] == a[..j];
      assert a[j] == a[..n][j];
      r := r + [CharOf(a[j])];
      j := j + 1;
    }
  }

  /** The first three cells of char_array_4 from those of char_array_3. */
  method FillThree(charArray3: array<Byte>, charArray4: array<Byte>)
    requires charArray3.Length == 3 && charArray4.Length == 4
    modifies charArray4
    ensures charArray4[..3] == [First(charArray3[0]), Second(charArray3[0], charArray3[1]), Third(charArray3[1], charArray3[2])]
  {
    charArray4[0] := First(charArray3[0]);
    charArray4[1] := Second(charArray3[0], charArray3[1]);
    charArray4[2] := Third(charArray3[1], charArray3[2]);
  }

  lemma CharsOfThree(w: Sextet, x: Sextet, y: Sextet)
    ensures Chars([w]) == [CharOf(w)]
    ensures Chars([w, x]) == [CharOf(w), CharOf(x)]
    ensures Chars([w, x, y]) == [CharOf(w), CharOf(x), CharOf(y)]
  {
    assert [w, x, y][..2] == [w, x] && [w, x][..1] == [w];
  }

  lemma CharsOfFour(w: Sextet, x: Sextet, y: Sextet, z: Sextet)
    ensures Chars([w, x, y, z]) == [CharOf(w), CharOf(x), CharOf(y), CharOf(z)]
  {
    assert [w, x, y, z][..3] == [w, x, y];
    CharsOfThree(w, x, y);
  }

  lemma EncodeGroup(s: seq<Byte>)
    requires |s| >= 3
    ensures Encode(s) == Chars([First(s[0]), Second(s[0], s[1]), Third(s[1], s[2]), Fourth(s[2])]) + Encode(s[3..])
  {
    hide First, Second, Third, Fourth, CharOf;
    CharsOfFour(First(s[0]), Second(s[0], s[1]), Third(s[1], s[2]), Fourth(s[2]));
  }

  /** base64_encode: the loop over whole groups, then the partial group. */
  method EncodeBytes(bytes: seq<Byte>) returns (ret: string)
    ensures ret == Encode(bytes)
  {
    hide Encode, Chars, First, Second, Third, Fourth;
    ret := "";
    var i, k := 0, 0;
    var charArray3 := new Byte[3];
    var charArray4 := new Byte[4];
    assert charArray3[..0] + bytes[0..] == bytes;
    assert ret + Encode(bytes) == Encode(bytes);
    while k < |bytes|
      invariant 0 <= k <= |bytes| && 0 <= i < 3
      invariant ret + Encode(charArray3[..i] + bytes[k..]) == Encode(bytes)
      decreases |bytes| - k
    {
      ghost var rest := charArray3[..i] + bytes[k..];
      charArray3[i] := bytes[k];
      i, k := i + 1, k + 1;
      assert charArray3[..i] + bytes[k..] == rest;
      if i == 3 {
        assert rest[3..] == bytes[k..] && rest[..3] == charArray3[..];
        EncodeSplits(rest);
        assert charArray3[..] == charArray3[..3];
        ghost var before := ret;
        ret := EncodeThree(ret, charArray3, charArray4);
        assert (before + Encode(rest[..3])) + Encode(bytes[k..]) == before + (Encode(rest[..3]) + Encode(bytes[k..]));
        i := 0;
        assert charArray3[..0] + bytes[k..] == bytes[k..];
      }
    }
    assert charArray3[..i] + bytes[k..] == charArray3[..i];
    EncodeNothing();
    if i != 0 {
      ret := EncodeTail(ret, charArray3, charArray4, i);
    }
  }

  lemma EncodeSplits(s: seq<Byte>)
    requires |s| >= 3
    ensures Encode(s) == Encode(s[..3]) + Encode(s[3..])
  {
    hide Chars, First, Second, Third, Fourth;
    EncodeGroup(s);
    EncodeGroup(s[..3]);
    EncodeNothing();
    assert s[..3][3..] == [];
  }

  /** A full group: four characters for the three bytes. */
  method EncodeThree(ret: string, charArray3: array<Byte>, charArray4: array<Byte>) returns (r: string)
    requires charArray3.Length == 3 && charArray4.Length == 4
    requires charArray3 != charArray4
    modifies charArray4
    ensures r == ret + Encode(charArray3[..])
  {
    hide Encode, Chars, First, Second, Third, Fourth;
    FillThree(charArray3, charArray4);
    charArray4[3] := Fourth(charArray3[2]);
    ghost var group := charArray4[..4];
    assert group == charArray4[..3] + [charArray4[3]];
    EncodeGroup(charArray3[..]);
    EncodeNothing();
    assert charArray3[..][3..] == [];
    r := AppendChars(ret, charArray4, 4);
  }

  lemma EncodeNothing()
    ensures Encode([]) == ""
  {
  }

  /** The partial group: zero the rest of char_array_3, write i + 1 characters, pad to four. */
  method EncodeTail(ret: string, charArray3: array<Byte>, charArray4: array<Byte>, n: nat) returns (r: string)
    requires charArray3.Length == 3 && charArray4.Length == 4 && 0 < n < 3
    requires charArray3 != charArray4
    modifies charArray3, charArray4
    ensures r == ret + Encode(old(charArray3[..n]))
  {
    ghost var s := charArray3[..n];
    var j := n;
    while j < 3
      invariant n <= j <= 3
      invariant charArray3[..n] == s && forall m :: n <= m < j ==> charArray3[m] == 0
    {
      charArray3[j] := 0;
      j := j + 1;
    }
    FillThree(charArray3, charArray4);
    ghost var t := charArray4[..3];
    assert charArray4[..n + 1] == t[..n + 1];
    assert s[0] == charArray3[0];
    r := AppendChars(ret, charArray4, n + 1);
    TailChars(s, n, charArray3[1], charArray3[2]);
    var i := n;
    ghost var body := r;
    while i < 3
      invariant n <= i <= 3 && r == body + Padding(i - n)
    {
      r := r + [PAD];
      i := i + 1;
    }
    assert ret + Chars(t[..n + 1]) + Padding(3 - n) == ret + (Chars(t[..n + 1]) + Padding(3 - n));
  }

  function Padding(n: nat): string { if n == 0 then "" else Padding(n - 1) + [PAD] }

  lemma TailChars(s: seq<Byte>, n: nat, b: Byte, c: Byte)
    requires 0 < n < 3 && |s| == n && c == 0 && (if n == 1 then b == 0 else b == s[1])
    ensures var t: seq<Byte> := [First(s[0]), Second(s[0], b), Third(b, c)];
      Sextets(t[..n + 1]) && Encode(s) == Chars(t[..n + 1]) + Padding(3 - n)
  {
    var t: seq<Byte> := [First(s[0]), Second(s[0], b), Third(b, c)];
    CharsOfThree(First(s[0]), Second(s[0], b), Third(b, c));
    assert Padding(1) == [PAD] && Padding(2) == [PAD, PAD];
    if n == 1 { assert t[..2] == [First(s[0]), Second(s[0], b)]; } else { assert t[..3] == t; }
  }

  // ----- decoding ----------------------------------------------------------------------------

  /** How many characters of the alphabet the text starts with. */
  function PrefixLength(s: string): (k: nat)
    ensures k <= |s| && (forall j :: 0 <= j < k ==> IsBase64(s[j])) && (k < |s| ==> !IsBase64(s[k]))
  {
    if s == [] || !IsBase64(s[0]) then 0 else 1 + PrefixLength(s[1..])
  }

  /** The bytes that a run of sextets stands for; up to three left over give one byte less. */
  function Bytes(v: seq<Sextet>): seq<Byte> {
    if |v| <= 1 then []
    else if |v| == 2 then [ByteOne(v[0], v[1])]
    else if |v| == 3 then [ByteOne(v[0], v[1]), ByteTwo(v[1], v[2])]
    else [ByteOne(v[0], v[1]), ByteTwo(v[1], v[2]), ByteThree(v[2], v[3])] + Bytes(v[4..])
  }

  function SextetsOf(s: string): (v: seq<Sextet>)
    requires forall j :: 0 <= j < |s| ==> IsBase64(s[j])
    ensures |v| == |s| && forall j :: 0 <= j < |s| ==> v[j] == SextetOf(s[j])
  {
    seq(|s|, j requires 0 <= j < |s| => SextetOf(s[j]))
  }

  function Decode(s: string): seq<Byte> {
    Bytes(SextetsOf(s[..PrefixLength(s)]))
  }

  /** Decoding looks at the alphabet prefix only, and its length fixes the output's length. */
  lemma {:induction false} DecodedLength(s: string)
    ensures Decode(s) == Decode(s[..PrefixLength(s)])
    ensures var k := PrefixLength(s); |Decode(s)| == 3 * (k / 4) + if k % 4 == 0 then 0 else k % 4 - 1
  {
    var p := s[..PrefixLength(s)];
    AllPrefix(p);
    assert p[..|p|] == p;
    BytesLength(SextetsOf(p));
  }

  lemma {:induction false} AllPrefix(s: string)
    requires forall j :: 0 <= j < |s| ==> IsBase64(s[j])
    ensures PrefixLength(s) == |s|
  {
    if s != [] {
      assert forall j :: 0 <= j < |s[1..]| ==> s[1..][j] == s[j + 1];
      AllPrefix(s[1..]);
    }
  }

  lemma {:induction false} BytesLength(v: seq<Sextet>)
    ensures |Bytes(v)| == 3 * (|v| / 4) + if |v| % 4 == 0 then 0 else |v| % 4 - 1
  {
    if |v| >= 4 { BytesLength(v[4..]); }
  }

  /** `char_array_4[j] = base64_chars.find(char_array_4[j])` for the first n cells. */
  method Translate(a: array<Byte>, n: nat)
    requires n <= a.Length && forall j :: 0 <= j < n ==> IsBase64(a[j] as char)
    modifies a
    ensures forall j :: 0 <= j < n ==> IsBase64(old(a[j]) as char) && a[j] == SextetOf(old(a[j]) as char)
    ensures forall j :: n <= j < a.Length ==> a[j] == old(a[j])
  {
    var j := 0;
    while j < n
      invariant 0 <= j <= n
      invariant forall m :: 0 <= m < j ==> IsBase64(old(a[m]) as char) && a[m] == SextetOf(old(a[m]) as char)
      invariant forall m :: j <= m < a.Length ==> a[m] == old(a[m])
    {
      a[j] := SextetOf(a[j] as char);
      j := j + 1;
    }
  }

  /** base64_decode.  The scratch arrays start with arbitrary contents; the result is a function
      of the text alone. */
  method DecodeText(s: string) returns (ret: seq<Byte>)
    ensures ret == Decode(s)
  {
    hide Bytes, SextetOf, SextetsOf, PrefixLength;
    ret := [];
    var i, k := 0, 0;
    var charArray4 := new Byte[4];
    var charArray3 := new Byte[3];
    ghost var p := s[..PrefixLength(s)];
    assert p[0..] == p && ret + Bytes(SextetsOf(p)) == Bytes(SextetsOf(p));
    while k < |s| && s[k] != '=' && IsBase64(s[k])
      invariant 0 <= i < 4 && i <= k <= |p|
      invariant forall j :: 0 <= j < i ==> charArray4[j] == p[k - i + j] as int
      invariant ret + Bytes(SextetsOf(p[k - i..])) == Bytes(SextetsOf(p))
      decreases |s| - k
    {
      charArray4[i] := s[k] as int;
      i, k := i + 1, k + 1;
      if i == 4 {
        ghost var rest := p[k - 4..];
        assert rest[4..] == p[k..];
        assert forall j :: 0 <= j < |rest| ==> rest[j] == p[k - 4 + j];
        DecodeWhole(rest, charArray4, charArray3);
        Regroup(ret, charArray3[..], Bytes(SextetsOf(p[k..])));
        ret := ret + charArray3[..];
        i := 0;
      }
    }
    if i != 0 {
      ghost var rest := p[k - i..];
      assert forall j :: 0 <= j < |rest| ==> rest[j] == p[k - i + j];
      var tail := DecodeRest(rest, charArray4, charArray3, i);
      ret := ret + tail;
    } else {
      NoBytes(p[k..]);
    }
  }

  lemma Regroup(a: seq<Byte>, b: seq<Byte>, c: seq<Byte>)
    ensures (a + b) + c == a + (b + c)
  {
  }

  lemma NoBytes(s: string)
    requires s == []
    ensures Bytes(SextetsOf(s)) == []
  {
  }

  /** A full group: the four characters become sextets in place, and these three bytes. */
  method DecodeWhole(ghost rest: string, charArray4: array<Byte>, charArray3: array<Byte>)
    requires charArray4.Length == 4 && charArray3.Length == 3 && charArray3 != charArray4
    requires |rest| >= 4 && (forall j :: 0 <= j < |rest| ==> IsBase64(rest[j]))
    requires forall j :: 0 <= j < 4 ==> charArray4[j] == rest[j] as int
    modifies charArray4, charArray3
    ensures Bytes(SextetsOf(rest)) == charArray3[..] + Bytes(SextetsOf(rest[4..]))
  {
    hide Bytes, ByteOne, ByteTwo, ByteThree, SextetOf;
    Translate(charArray4, 4);
    ghost var v := SextetsOf(rest);
    assert v[0] == charArray4[0] && v[1] == charArray4[1] && v[2] == charArray4[2] && v[3] == charArray4[3];
    charArray3[0] := ByteOne(charArray4[0], charArray4[1]);
    charArray3[1] := ByteTwo(charArray4[1], charArray4[2]);
    charArray3[2] := ByteThree(charArray4[2], charArray4[3]);
    assert v[4..] == SextetsOf(rest[4..]);
    BytesGroup(v);
    assert charArray3[..] == [charArray3[0], charArray3[1], charArray3[2]];
  }

  /** The partial group of n characters: the cells behind them are stale, and so is what is
      computed from them, but only n - 1 bytes are taken. */
  method DecodeRest(ghost rest: string, charArray4: array<Byte>, charArray3: array<Byte>, n: nat) returns (tail: seq<Byte>)
    requires charArray4.Length == 4 && charArray3.Length == 3 && charArray3 != charArray4
    requires 0 < n < 4 && |rest| == n && (forall j :: 0 <= j < n ==> IsBase64(rest[j]))
    requires forall j :: 0 <= j < n ==> charArray4[j] == rest[j] as int
    modifies charArray4, charArray3
    ensures tail == Bytes(SextetsOf(rest))
  {
    hide Bytes, ByteOne, ByteTwo, ByteThree, SextetOf;
    Translate(charArray4, n);
    ghost var v := SextetsOf(rest);
    assert forall j :: 0 <= j < n ==> charArray4[j] == v[j];
    charArray3[0] := ByteOne(charArray4[0], charArray4[1]);
    charArray3[1] := ByteTwo(charArray4[1], charArray4[2]);
    BytesTail(v, charArray3[0], charArray3[1]);
    tail := charArray3[..n - 1];
  }

  lemma BytesGroup(v: seq<Sextet>)
    requires |v| >= 4
    ensures Bytes(v) == [ByteOne(v[0], v[1]), ByteTwo(v[1], v[2]), ByteThree(v[2], v[3])] + Bytes(v[4..])
  {
  }

  lemma BytesTail(v: seq<Sextet>, b: Byte, c: Byte)
    requires |v| < 4
    requires |v| >= 2 ==> b == ByteOne(v[0], v[1])
    requires |v| >= 3 ==> c == ByteTwo(v[1], v[2])
    ensures |v| == 0 ==> Bytes(v) == []
    ensures |v| > 0 ==> Bytes(v) == [b, c][..|v| - 1]
  {
  }

  // ----- the two inverses --------------------------------------------------------------------

  /** Padded groups of four, with zero bits under the padding (section 3.5 of RFC 4648). */
  predicate Canonical(s: string) {
    s == [] ||
    (|s| >= 4 && IsBase64(s[0]) && IsBase64(s[1]) &&
     ((IsBase64(s[2]) && IsBase64(s[3]) && Canonical(s[4..])) ||
      (|s| == 4 && IsBase64(s[2]) && s[3] == PAD && SextetOf(s[2]) % 4 == 0) ||
      (|s| == 4 && s[2] == PAD && s[3] == PAD && SextetOf(s[1]) % 16 == 0)))
  }

  lemma {:induction false} EncodedLength(b: seq<Byte>)
    ensures |Encode(b)| == 4 * ((|b| + 2) / 3)
  {
    hide First, Second, Third, Fourth, CharOf;
    if |b| >= 3 { EncodedLength(b[3..]); }
  }

  lemma {:induction false} EncodedIsCanonical(b: seq<Byte>)
    ensures Canonical(Encode(b))
  {
    hide First, Second, Third, Fourth, ByteOne, ByteTwo, ByteThree, CharOf, SextetOf;
    var s := Encode(b);
    if |b| >= 3 {
      EncodedIsCanonical(b[3..]);
      assert s[4..] == Encode(b[3..]);
    } else if |b| == 2 {
      SextetOfChar(Third(b[1], 0));
      ZeroBits(b[1]);
    } else if |b| == 1 {
      SextetOfChar(Second(b[0], 0));
      ZeroBits(b[0]);
    }
  }

  lemma ZeroBits(x: Byte)
    ensures Third(x, 0) % 4 == 0 && Second(x, 0) % 16 == 0
  {
  }

  /** The alphabet prefix of a text with at least four leading alphabet characters. */
  lemma DecodeGroup(s: string)
    requires |s| >= 4 && IsBase64(s[0]) && IsBase64(s[1]) && IsBase64(s[2]) && IsBase64(s[3])
    ensures Decode(s) == [ByteOne(SextetOf(s[0]), SextetOf(s[1])), ByteTwo(SextetOf(s[1]), SextetOf(s[2])),
                          ByteThree(SextetOf(s[2]), SextetOf(s[3]))] + Decode(s[4..])
  {
    hide ByteOne, ByteTwo, ByteThree, SextetOf;
    PrefixOfGroup(s);
    var p := s[..PrefixLength(s)];
    assert SextetsOf(p)[4..] == SextetsOf(s[4..][..PrefixLength(s[4..])]);
  }

  lemma PrefixOfGroup(s: string)
    requires |s| >= 4 && IsBase64(s[0]) && IsBase64(s[1]) && IsBase64(s[2]) && IsBase64(s[3])
    ensures PrefixLength(s) == 4 + PrefixLength(s[4..])
  {
    var k, m := PrefixLength(s), PrefixLength(s[4..]);
    assert forall j :: 0 <= j < |s| - 4 ==> s[4..][j] == s[j + 4];
    assert k >= 4;
    assert k < |s| ==> !IsBase64(s[4..][k - 4]);
    assert m < |s| - 4 ==> !IsBase64(s[4 + m]);
  }

  /** decode(encode(b)) == b for every byte string. */
  lemma {:induction false} DecodeEncode(b: seq<Byte>)
    ensures Decode(Encode(b)) == b
  {
    hide First, Second, Third, Fourth, ByteOne, ByteTwo, ByteThree, CharOf, SextetOf;
    var s := Encode(b);
    if |b| >= 3 {
      DecodeEncode(b[3..]);
      assert s[4..] == Encode(b[3..]);
      DecodeGroup(s);
      GroupInverse(b[0], b[1], b[2]);
      SextetsOfGroup(b[0], b[1], b[2]);
      assert b == [b[0], b[1], b[2]] + b[3..];
    } else if |b| == 2 {
      DecodePartial(s, 3);
      GroupInverse(b[0], b[1], 0);
      SextetsOfGroup(b[0], b[1], 0);
    } else if |b| == 1 {
      DecodePartial(s, 2);
      GroupInverse(b[0], 0, 0);
      SextetsOfGroup(b[0], 0, 0);
    }
  }

  lemma SextetsOfGroup(a: Byte, b: Byte, c: Byte)
    ensures SextetOf(CharOf(First(a))) == First(a) && SextetOf(CharOf(Second(a, b))) == Second(a, b)
    ensures SextetOf(CharOf(Third(b, c))) == Third(b, c) && SextetOf(CharOf(Fourth(c))) == Fourth(c)
  {
    hide First, Second, Third, Fourth, CharOf, SextetOf;
    SextetOfChar(First(a));
    SextetOfChar(Second(a, b));
    SextetOfChar(Third(b, c));
    SextetOfChar(Fourth(c));
  }

  /** Two or three alphabet characters in front of the padding. */
  lemma DecodePartial(s: string, k: nat)
    requires 2 <= k <= 3 && k < |s| && (forall j :: 0 <= j < k ==> IsBase64(s[j])) && !IsBase64(s[k])
    ensures k == 2 ==> Decode(s) == [ByteOne(SextetOf(s[0]), SextetOf(s[1]))]
    ensures k == 3 ==> Decode(s) == [ByteOne(SextetOf(s[0]), SextetOf(s[1])), ByteTwo(SextetOf(s[1]), SextetOf(s[2]))]
  {
    hide ByteOne, ByteTwo, ByteThree, SextetOf;
    ShortPrefix(s, k);
  }

  lemma ShortPrefix(s: string, k: nat)
    requires k < |s| && (forall j :: 0 <= j < k ==> IsBase64(s[j])) && !IsBase64(s[k])
    ensures PrefixLength(s) == k
  {
    assert PrefixLength(s) <= k;
  }

  /** encode(decode(s)) == s exactly for the canonical padded texts. */
  lemma {:induction false} EncodeDecode(s: string)
    ensures Encode(Decode(s)) == s <==> Canonical(s)
  {
    if Canonical(s) {
      EncodeDecodeCanonical(s);
    } else if Encode(Decode(s)) == s {
      EncodedIsCanonical(Decode(s));
    }
  }

  lemma {:induction false} EncodeDecodeCanonical(s: string)
    requires Canonical(s)
    ensures Encode(Decode(s)) == s
    decreases |s|
  {
    hide First, Second, Third, Fourth, ByteOne, ByteTwo, ByteThree, CharOf, SextetOf;
    if s != [] {
      if IsBase64(s[2]) && IsBase64(s[3]) {
        EncodeDecodeCanonical(s[4..]);
        DecodeGroup(s);
        GroupForward(SextetOf(s[0]), SextetOf(s[1]), SextetOf(s[2]), SextetOf(s[3]));
        assert Decode(s)[3..] == Decode(s[4..]);
        assert s == [s[0], s[1], s[2], s[3]] + s[4..];
      } else if s[2] == PAD {
        DecodePartial(s, 2);
        OneByteForward(SextetOf(s[0]), SextetOf(s[1]));
        assert s == [s[0], s[1], PAD, PAD];
      } else {
        DecodePartial(s, 3);
        TwoBytesForward(SextetOf(s[0]), SextetOf(s[1]), SextetOf(s[2]));
        assert s == [s[0], s[1], s[2], PAD];
      }
    }
  }

  lemma OneByteForward(w: Sextet, x: Sextet)
    requires x % 16 == 0
    ensures First(ByteOne(w, x)) == w && Second(ByteOne(w, x), 0) == x
  {
    ForwardOne(w, x);
    SecondOf(ByteOne(w, x), 0, x);
  }

  lemma TwoBytesForward(w: Sextet, x: Sextet, y: Sextet)
    requires y % 4 == 0
    ensures var a, b := ByteOne(w, x), ByteTwo(x, y); First(a) == w && Second(a, b) == x && Third(b, 0) == y
  {
    ForwardOne(w, x);
    ForwardTwo(x, y);
    hide ByteOne, ByteTwo;
    SecondOf(ByteOne(w, x), ByteTwo(x, y), x);
    ThirdOf(ByteTwo(x, y), 0, y);
  }
}
