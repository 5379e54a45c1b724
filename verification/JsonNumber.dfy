/** Integer text: uintToString, valueToString and Reader::decodeNumber. */
module JsonNumber {
  import opened JsonValue

  const NUL: char := '\0'
  // uintToStringBufferSize: 3 * sizeof(LargestUInt) + 1.
  const BUFFER_SIZE: nat := 25

  predicate IsDigit(c: char) { '0' <= c <= '9' }

  predicate AllDigits(s: string) { forall i :: 0 <= i < |s| ==> IsDigit(s[i]) }

  function DigitChar(d: nat): (c: char)
    requires d < 10
    ensures IsDigit(c) && c as int - '0' as int == d
  {
    (d + '0' as int) as char
  }

  /** Decimal digits without leading zeros; "0" for zero. */
  function Digits(n: nat): (s: string)
    ensures |s| > 0 && AllDigits(s)
  {
    if n < 10 then [DigitChar(n)] else Digits(n / 10) + [DigitChar(n % 10)]
  }

  /** The number a digit string denotes. */
  function DigitsValue(s: string): nat
    requires AllDigits(s)
  {
    if s == [] then 0
    else DigitsValue(s[..|s| - 1]) * 10 + (s[|s| - 1] as int - '0' as int)
  }

  function IntText(i: int): string {
    if i < 0 then "-" + Digits(-i) else Digits(i)
  }

  // ----- printing ------------------------------------------------------------------------

  function Pow10(k: nat): nat {
    if k == 0 then 1 else 10 * Pow10(k - 1)
  }

  lemma {:induction false} DigitsLength(n: nat, k: nat)
    requires 1 <= k && n < Pow10(k)
    ensures |Digits(n)| <= k
  {
    if n >= 10 { DigitsLength(n / 10, k - 1); }
  }

  lemma UInt64HasTwentyDigits(n: nat)
    requires n <= MAX_UINT64
    ensures |Digits(n)| <= 20
  {
    assert Pow10(5) == 100000;
    assert Pow10(10) == 10000000000;
    assert Pow10(15) == 1000000000000000;
    assert Pow10(20) == 100000000000000000000;
    DigitsLength(n, 20);
  }

  /** The part of the number still to be printed. */
  function Pending(n: nat): string {
    if n == 0 then [] else Digits(n)
  }

  lemma PendingStep(v: nat, done: string)
    requires v != 0
    ensures |Pending(v)| >= 1
    ensures Pending(v) + done == Pending(v / 10) + ([DigitChar(v % 10)] + done)
  {
  }

  lemma DigitsSplit(n: nat)
    ensures Digits(n) == Pending(n / 10) + [DigitChar(n % 10)]
    ensures Pending(0) == []
  {
  }

  /** uintToString: writes a NUL and then the digits, right to left, in front of `end`.
      At most 21 cells are used, so a caller with BUFFER_SIZE cells can still write a sign. */
  method UIntToString(value: nat, buffer: array<char>, end: nat) returns (current: nat)
    requires value <= MAX_UINT64
    requires BUFFER_SIZE <= end <= buffer.Length
    modifies buffer
    ensures end - 21 <= current < end - 1
    ensures buffer[current..end] == Digits(value) + [NUL]
    ensures buffer[..current] == old(buffer[..current])
    ensures buffer[end..] == old(buffer[end..])
  {
    hide Digits, Pending, DigitChar;
    UInt64HasTwentyDigits(value);
    DigitsSplit(value);
    current := end - 1;
    buffer[current] := NUL;
    current := current - 1;
    buffer[current] := DigitChar(value % 10);
    var v: nat := value / 10;
    assert buffer[current..end - 1] == [DigitChar(value % 10)];
    while v != 0
      invariant end - 21 <= current < end - 1
      invariant Digits(value) == Pending(v) + buffer[current..end - 1]
      invariant buffer[end - 1] == NUL
      invariant buffer[..current] == old(buffer[..current])
      invariant buffer[end..] == old(buffer[end..])
    {
      ghost var done := buffer[current..end - 1];
      PendingStep(v, done);
      current := current - 1;
      buffer[current] := DigitChar(v % 10);
      assert buffer[current..end - 1] == [DigitChar(v % 10)] + done;
      v := v / 10;
    }
    assert buffer[current..end] == buffer[current..end - 1] + [NUL];
  }

  /** The C string that starts the buffer: everything in front of the first NUL. */
  function CString(s: string): (r: string)
    requires NUL in s
    ensures |r| < |s| && r == s[..|r|] && s[|r|] == NUL && NUL !in r
  {
    if s[0] == NUL then [] else [s[0]] + CString(s[1..])
  }

  lemma CStringOfTerminated(s: string, tail: string)
    requires NUL !in s
    ensures CString(s + [NUL] + tail) == s
  {
    var t := s + [NUL] + tail;
    var r := CString(t);
    assert t[|s|] == NUL;
    assert forall i :: 0 <= i < |s| ==> t[i] == s[i];
    assert |r| == |s|;
    assert r == t[..|s|] == s;
  }

  lemma CStringOfBuffer(s: string, current: nat, text: string)
    requires current <= |s| && s[current..] == text + [NUL]
    requires NUL !in text
    ensures NUL in s[current..] && CString(s[current..]) == text
  {
    CStringOfTerminated(text, []);
    assert text + [NUL] + [] == s[current..];
    assert s[current..][|text|] == NUL;
  }

  lemma DigitsHaveNoNul(n: nat)
    ensures NUL !in Digits(n)
  {
  }

  /** valueToString(LargestUInt). */
  method UIntToText(value: nat) returns (text: string)
    requires value <= MAX_UINT64
    ensures text == Digits(value)
  {
    var buffer := new char[BUFFER_SIZE];
    var current := UIntToString(value, buffer, BUFFER_SIZE);
    assert buffer[current..] == buffer[current..BUFFER_SIZE];
    DigitsHaveNoNul(value);
    CStringOfBuffer(buffer[..], current, Digits(value));
    assert buffer[..][current..] == buffer[current..];
    text := CString(buffer[current..]);
  }

  /** uintToString followed by `*--current = '-'`. */
  method NegativeToString(magnitude: nat, buffer: array<char>) returns (current: nat)
    requires magnitude <= MAX_UINT64 && buffer.Length == BUFFER_SIZE
    modifies buffer
    ensures current < BUFFER_SIZE
    ensures buffer[current..] == ['-'] + Digits(magnitude) + [NUL]
  {
    current := UIntToString(magnitude, buffer, BUFFER_SIZE);
    ghost var digits := buffer[current..BUFFER_SIZE];
    current := current - 1;
    buffer[current] := '-';
    assert buffer[current..] == ['-'] + digits;
  }

  /** valueToString(LargestInt): the sign is written into the cell in front of the digits. */
  method IntToText(value: int) returns (text: string)
    requires MIN_INT64 <= value <= MAX_INT64
    ensures text == IntText(value)
  {
    var buffer := new char[BUFFER_SIZE];
    var current: int;
    if value == MIN_INT64 {
      current := NegativeToString(MAX_INT64 + 1, buffer);
    } else if value < 0 {
      current := NegativeToString(-value, buffer);
    } else {
      current := UIntToString(value, buffer, BUFFER_SIZE);
      assert buffer[current..] == buffer[current..BUFFER_SIZE];
    }
    DigitsHaveNoNul(if value < 0 then -value else value);
    ghost var contents := buffer[..];
    assert contents[current..] == buffer[current..] == IntText(value) + [NUL];
    CStringOfBuffer(contents, current, IntText(value));
    text := CString(buffer[current..]);
  }

  // ----- reading -------------------------------------------------------------------------

  /** Value::LargestUInt: a value of this type that is never out of range never wrapped. */
  type UInt64 = n: int | 0 <= n <= MAX_UINT64

  /** The largest magnitude decodeNumber accepts as an integer. */
  function Limit(negative: bool): nat {
    if negative then MAX_INT64 + 1 else MAX_UINT64
  }

  predicate Negative(text: string) { |text| > 0 && text[0] == '-' }

  function Magnitude(text: string): string { if Negative(text) then text[1..] else text }

  /** The integer value a number token stands for, if it is one: an optional minus followed by
      digits only, with a value in [-2^63, 2^64 - 1]. */
  function IntegerOf(text: string): Option<Value> {
    var body := Magnitude(text);
    if AllDigits(body) && DigitsValue(body) <= Limit(Negative(text))
    then Some(Tagged(if Negative(text) then -(DigitsValue(body) as int) else DigitsValue(body), Negative(text)))
    else None
  }

  /** decodeNumber stores small and negative numbers as int, the others as uint. */
  function Tagged(n: int, negative: bool): Value {
    if negative || n <= MAX_INT then Int(n) else UInt(n)
  }

  /** The value of a digit string, one more decimal digit at a time. */
  lemma AnotherDigit(s: string, d: nat)
    requires AllDigits(s) && d < 10
    ensures var t := s + ["0123456789"[d]];
      AllDigits(t) && DigitsValue(t) == 10 * DigitsValue(s) + d
  {
    var t := s + ["0123456789"[d]];
    assert t[..|t| - 1] == s;
  }

  /** Which texts are integers, and of which type: what is negative or fits an int is an int. */
  lemma IntegerTypes(text: string)
    ensures var negative := text != "" && text[0] == '-';
      var body := if negative then text[1..] else text;
      if !AllDigits(body) then IntegerOf(text) == None
      else if negative then
        IntegerOf(text) == if DigitsValue(body) <= 9223372036854775808 then Some(Int(-(DigitsValue(body) as int))) else None
      else if DigitsValue(body) <= 2147483647 then IntegerOf(text) == Some(Int(DigitsValue(body)))
      else IntegerOf(text) == if DigitsValue(body) <= 18446744073709551615 then Some(UInt(DigitsValue(body))) else None
  {
    hide DigitsValue;
  }

  lemma {:induction false} DigitsValueGrows(s: string, k: nat)
    requires AllDigits(s) && k <= |s|
    ensures DigitsValue(s[..k]) <= DigitsValue(s)
    ensures k < |s| ==> 10 * DigitsValue(s[..k]) <= DigitsValue(s)
    decreases |s|
  {
    if k < |s| {
      var p := s[..|s| - 1];
      DigitsValueGrows(p, k);
      assert p[..k] == s[..k];
    } else {
      assert s[..k] == s;
    }
  }

  /** Reader::decodeNumber's integer path.  The digit-by-digit overflow test at `threshold`
      takes exactly the numbers IntegerOf describes, and every intermediate value fits. */
  method DecodeInteger(text: string) returns (decoded: Option<Value>)
    ensures decoded == IntegerOf(text)
  {
    var current := 0;
    var isNegative := |text| > 0 && text[0] == '-';
    if isNegative { current := 1; }
    var maxIntegerValue := if isNegative then MAX_INT64 + 1 else MAX_UINT64;
    var threshold := maxIntegerValue / 10;
    var value: UInt64 := 0;
    ghost var body := Magnitude(text);
    ghost var skip := current;
    assert body[..0] == [] && DigitsValue([]) == 0;
    hide DigitsValue;
    while current < |text|
      invariant skip <= current <= |text|
      invariant AllDigits(body[..current - skip])
      invariant value == DigitsValue(body[..current - skip]) <= maxIntegerValue
    {
      ghost var k := current - skip;
      var c := text[current];
      current := current + 1;
      assert c == body[k];
      if c < '0' || c > '9' {
        return None;
      }
      var digit := c as int - '0' as int;
      NextDigit(body, k);
      if value >= threshold {
        if value > threshold || current != |text| || digit > maxIntegerValue % 10 {
          if AllDigits(body) { TooLarge(body, k, maxIntegerValue); }
          return None;
        }
      }
      value := value * 10 + digit;
    }
    assert body[..current - skip] == body;
    if isNegative && value == maxIntegerValue {
      decoded := Some(Int(MIN_INT64));
    } else if isNegative {
      decoded := Some(Int(-(value as int)));
    } else if value <= MAX_INT {
      decoded := Some(Int(value));
    } else {
      decoded := Some(UInt(value));
    }
  }

  lemma NextDigit(body: string, k: nat)
    requires k < |body| && AllDigits(body[..k]) && IsDigit(body[k])
    ensures AllDigits(body[..k + 1])
    ensures DigitsValue(body[..k + 1]) == DigitsValue(body[..k]) * 10 + (body[k] as int - '0' as int)
  {
    assert body[..k + 1] == body[..k] + [body[k]];
    assert body[..k + 1][..k] == body[..k];
  }

  lemma TooLarge(body: string, k: nat, max: nat)
    requires AllDigits(body) && k < |body| && 100 <= max
    requires var value, digit := DigitsValue(body[..k]), body[k] as int - '0' as int;
      value > max / 10 || (value == max / 10 && (k + 1 != |body| || digit > max % 10))
    ensures DigitsValue(body) > max
  {
    assert body[..k + 1][..k] == body[..k];
    DigitsValueGrows(body, k + 1);
    if k + 1 == |body| { assert body[..k + 1] == body; }
  }

  // ----- printing and reading are inverse ------------------------------------------------

  lemma {:induction false} DigitsRoundTrip(n: nat)
    ensures DigitsValue(Digits(n)) == n
  {
    var s := Digits(n);
    if n >= 10 {
      DigitsRoundTrip(n / 10);
      assert s[..|s| - 1] == Digits(n / 10);
    } else {
      assert s[..|s| - 1] == [];
    }
  }

  /** Every int64 and uint64 is printed to text that decodes to the same number. */
  lemma IntegerRoundTrip(n: int)
    requires MIN_INT64 <= n <= MAX_UINT64
    ensures IntegerOf(IntText(n)) == Some(Tagged(n, n < 0))
  {
    hide Digits, DigitsValue;
    var text := IntText(n);
    if n < 0 {
      assert text[1..] == Digits(-n);
      DigitsRoundTrip(-n);
    } else {
      assert IsDigit(text[0]);
      DigitsRoundTrip(n);
    }
  }

  // ----- which texts are accepted --------------------------------------------------------------

  /** The integers of section 6 of RFC 8259: digits without a superfluous leading zero. */
  predicate IsPlainInteger(text: string) {
    var body := Magnitude(text);
    body != "" && AllDigits(body) && (|body| == 1 || body[0] != '0')
  }

  lemma {:induction false} LeadingDigit(s: string)
    requires AllDigits(s) && s != "" && s[0] != '0'
    ensures DigitsValue(s) > 0
    decreases |s|
  {
    if |s| > 1 { LeadingDigit(s[..|s| - 1]); }
  }

  /** Printing the value of a digit string gives the string back exactly when it is not empty and
      has no superfluous leading zero. */
  lemma {:induction false} DigitsOfValue(s: string)
    requires AllDigits(s)
    ensures Digits(DigitsValue(s)) == s <==> s != "" && (|s| == 1 || s[0] != '0')
    decreases |s|
  {
    if |s| > 1 {
      var p, d := s[..|s| - 1], s[|s| - 1] as int - '0' as int;
      var v := DigitsValue(p);
      DigitsOfValue(p);
      assert p[0] == s[0] && s == p + [s[|s| - 1]];
      if s[0] != '0' { LeadingDigit(p); }
      LastDigit(v, d);
      if v > 0 { SameEnding(Digits(v), p, DigitChar(d)); }
    } else if |s| == 1 {
      assert DigitsValue(s[..0]) == 0 && s == [s[0]];
    }
  }

  lemma LastDigit(v: nat, d: int)
    requires 0 <= d < 10
    ensures v == 0 ==> |Digits(10 * v + d)| == 1
    ensures v > 0 ==> Digits(10 * v + d) == Digits(v) + [DigitChar(d)]
  {
    assert (10 * v + d) / 10 == v && (10 * v + d) % 10 == d;
  }

  lemma SameEnding(a: string, b: string, c: char)
    ensures a + [c] == b + [c] <==> a == b
  {
    if a + [c] == b + [c] { assert (a + [c])[..|a|] == a && (b + [c])[..|b|] == b; }
  }

  function NumberIn(v: Value): int { if v.Int? then v.i else if v.UInt? then v.u else 0 }

  /** Which accepted texts come back when their value is printed: the integers of RFC 8259 other
      than minus zero.  The rest are leading zeros and the lone minus. */
  lemma AcceptedText(text: string)
    requires IntegerOf(text).Some?
    ensures IntText(NumberIn(IntegerOf(text).value)) == text <==> IsPlainInteger(text) && text != "-0"
  {
    hide Digits, DigitsValue;
    var body := Magnitude(text);
    var value := DigitsValue(body);
    DigitsOfValue(body);
    if Negative(text) {
      assert text == "-" + body;
      if value == 0 {
        ZeroText(body);
      } else {
        ZeroDigit();
        assert text == "-0" ==> body == "0";
        assert ("-" + Digits(value))[1..] == Digits(value);
      }
    }
  }

  lemma ZeroDigit()
    ensures DigitsValue("0") == 0
  {
    assert "0"[..0] == "";
  }

  lemma ZeroText(s: string)
    requires AllDigits(s) && DigitsValue(s) == 0
    ensures Digits(0) == "0" && (s != "" && (|s| == 1 || s[0] != '0') ==> s == "0")
  {
    if s != "" && s[0] != '0' { LeadingDigit(s); }
    assert |s| == 1 ==> s == [s[0]];
  }

  /** A lone minus is taken for zero, which RFC 8259 does not allow. */
  lemma LoneMinus()
    ensures IntegerOf("-") == Some(Int(0)) && !IsPlainInteger("-")
  {
    assert Magnitude("-") == "" && DigitsValue("") == 0;
  }
}
