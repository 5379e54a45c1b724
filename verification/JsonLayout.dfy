/** Layout: the tokens of a value's text, and texts that set white space between them.

    `Strip` removes the white space that stands outside string literals.  `Laid` says that a text
    consists of given tokens in order with nothing but white space around them; it is finer than
    `Strip`, which cannot tell one number from two numbers with a space between. */
module JsonLayout {
  import opened JsonValue
  import opened JsonNumber
  import opened JsonString
  import opened JsonScanner
  import opened JsonFastWriter

  // ----- white space outside string literals ---------------------------------------------------

  datatype Mode = Outside | Inside | Escaping

  function NextMode(m: Mode, c: char): Mode {
    match m
    case Outside => if c == QUOTE then Inside else Outside
    case Inside => if c == QUOTE then Outside else if c == BACKSLASH then Escaping else Inside
    case Escaping => Inside
  }

  function ModeAfter(m: Mode, s: string): Mode
    decreases |s|
  {
    if s == [] then m else ModeAfter(NextMode(m, s[0]), s[1..])
  }

  function Strip(m: Mode, s: string): string
    decreases |s|
  {
    if s == [] then []
    else Kept(m, s[0]) + Strip(NextMode(m, s[0]), s[1..])
  }

  /** White space goes where no literal is open. */
  function Kept(m: Mode, c: char): string { if m == Outside && IsSpace(c) then [] else [c] }

  lemma {:induction false} StripConcat(m: Mode, a: string, b: string)
    ensures ModeAfter(m, a + b) == ModeAfter(ModeAfter(m, a), b)
    ensures Strip(m, a + b) == Strip(m, a) + Strip(ModeAfter(m, a), b)
    decreases |a|
  {
    hide Strip, ModeAfter, Kept, NextMode;
    StripFirst(m, a);
    StripFirst(m, a + b);
    if a == [] {
      assert a + b == b;
    } else {
      assert (a + b)[1..] == a[1..] + b && (a + b)[0] == a[0];
      StripConcat(NextMode(m, a[0]), a[1..], b);
    }
  }

  lemma StripFirst(m: Mode, s: string)
    ensures s == [] ==> ModeAfter(m, s) == m && Strip(m, s) == []
    ensures s != [] ==>
      && ModeAfter(m, s) == ModeAfter(NextMode(m, s[0]), s[1..])
      && Strip(m, s) == Kept(m, s[0]) + Strip(NextMode(m, s[0]), s[1..])
  {
  }

  predicate AllSpace(s: string) { forall i :: 0 <= i < |s| ==> IsSpace(s[i]) }

  lemma {:induction false} SpaceStrips(s: string)
    requires AllSpace(s)
    ensures ModeAfter(Outside, s) == Outside && Strip(Outside, s) == ""
  {
    if s != [] { SpaceStrips(s[1..]); }
  }

  /** Text without quotes and white space. */
  predicate Bare(s: string) { forall i :: 0 <= i < |s| ==> !IsSpace(s[i]) && s[i] != QUOTE }

  lemma {:induction false} BareIsKept(s: string)
    requires Bare(s)
    ensures ModeAfter(Outside, s) == Outside && Strip(Outside, s) == s
  {
    if s != [] {
      BareIsKept(s[1..]);
      assert [s[0]] + s[1..] == s;
    }
  }

  lemma InsideEscape(c: char)
    ensures ModeAfter(Inside, EscapedChar(c)) == Inside
    ensures Strip(Inside, EscapedChar(c)) == EscapedChar(c)
  {
    if EscapeLetter(c).Some? {
      PairInside(EscapeLetter(c).value);
    } else if IsControl(c) || c == NUL {
      var t := FourHexDigits(c as int);
      PairInside('u');
      FourHexSpells(c as int);
      HexIsBare(t, c as int);
      StripConcat(Inside, [BACKSLASH, 'u'], t);
    } else {
      PlainInside([c]);
    }
  }

  lemma PairInside(c: char)
    ensures ModeAfter(Inside, [BACKSLASH, c]) == Inside && Strip(Inside, [BACKSLASH, c]) == [BACKSLASH, c]
  {
    assert [BACKSLASH, c][1..] == [c] && [c][1..] == [];
    assert ModeAfter(Escaping, [c]) == ModeAfter(Inside, []) && Strip(Escaping, [c]) == [c] + Strip(Inside, []);
    assert Strip(Inside, [BACKSLASH, c]) == [BACKSLASH] + Strip(Escaping, [c]);
  }

  lemma HexIsBare(t: string, n: nat)
    requires Spells(t, n)
    ensures ModeAfter(Inside, t) == Inside && Strip(Inside, t) == t
  {
    hide Spells;
    SpelledValues(t, n);
    assert HexValue(QUOTE) < 0 && HexValue(BACKSLASH) < 0;
    PlainInside(t);
  }

  lemma {:induction false} PlainInside(t: string)
    requires forall i :: 0 <= i < |t| ==> t[i] != QUOTE && t[i] != BACKSLASH
    ensures ModeAfter(Inside, t) == Inside && Strip(Inside, t) == t
  {
    if t != [] {
      PlainInside(t[1..]);
      assert [t[0]] + t[1..] == t;
    }
  }

  lemma {:induction false} InsideEscapedText(s: string)
    ensures ModeAfter(Inside, EscapedText(s)) == Inside
    ensures Strip(Inside, EscapedText(s)) == EscapedText(s)
  {
    if s != [] {
      InsideEscape(s[0]);
      InsideEscapedText(s[1..]);
      StripConcat(Inside, EscapedChar(s[0]), EscapedText(s[1..]));
    }
  }

  /** Nothing is stripped from a quoted string: no byte of it is white space outside a literal. */
  lemma QuotedIsKept(s: string)
    ensures ModeAfter(Outside, Quoted(s)) == Outside && Strip(Outside, Quoted(s)) == Quoted(s)
  {
    hide EscapedText, Strip, ModeAfter;
    var inner := EscapedText(s);
    InsideEscapedText(s);
    QuoteCharIsKept(Inside);
    QuoteCharIsKept(Outside);
    StripConcat(Inside, inner, [QUOTE]);
    StripConcat(Outside, [QUOTE], inner + [QUOTE]);
    assert [QUOTE] + (inner + [QUOTE]) == Quoted(s);
  }

  lemma QuoteCharIsKept(m: Mode)
    ensures ModeAfter(m, [QUOTE]) == NextMode(m, QUOTE) && Strip(m, [QUOTE]) == [QUOTE]
  {
    assert [QUOTE][1..] == [];
    assert Strip(NextMode(m, QUOTE), []) == [] && ModeAfter(NextMode(m, QUOTE), []) == NextMode(m, QUOTE);
  }

  lemma IntTextIsBare(n: int)
    ensures Bare(IntText(n))
  {
  }

  // ----- tokens with white space around them -----------------------------------------------------

  function Leading(t: string): (n: nat)
    ensures n <= |t| && AllSpace(t[..n]) && (n < |t| ==> !IsSpace(t[n]))
  {
    if t == "" || !IsSpace(t[0]) then 0
    else
      var n := 1 + Leading(t[1..]);
      assert t[..n] == [t[0]] + t[1..][..n - 1];
      n
  }

  /** A token's text: it does not begin with white space, and stripping leaves it as it is. */
  predicate Solid(tok: string) {
    && tok != "" && !IsSpace(tok[0])
    && ModeAfter(Outside, tok) == Outside && Strip(Outside, tok) == tok
  }

  predicate Laid(toks: seq<string>, t: string)
    decreases |toks|
  {
    if toks == [] then AllSpace(t)
    else
      var n, k := Leading(t), |toks[0]|;
      Solid(toks[0]) && n + k <= |t| && t[n..n + k] == toks[0] && Laid(toks[1..], t[n + k..])
  }

  function Concat(toks: seq<string>): string {
    if toks == [] then "" else toks[0] + Concat(toks[1..])
  }

  lemma {:induction false} LeadingIs(t: string, n: nat)
    requires n <= |t| && AllSpace(t[..n]) && (n < |t| ==> !IsSpace(t[n]))
    ensures Leading(t) == n
  {
    if n > 0 {
      assert t[..n][0] == t[0];
      assert t[1..][..n - 1] == t[..n][1..];
      LeadingIs(t[1..], n - 1);
    }
  }

  lemma LaidCons(w: string, tok: string, toks: seq<string>, rest: string)
    requires AllSpace(w) && Solid(tok) && Laid(toks, rest)
    ensures Laid([tok] + toks, w + (tok + rest))
  {
    hide Solid;
    var t := w + (tok + rest);
    assert tok != "" && !IsSpace(tok[0]) by { SolidStarts(tok); }
    assert t[..|w|] == w && t[|w|] == tok[0];
    LeadingIs(t, |w|);
    assert t[|w|..|w| + |tok|] == tok && t[|w| + |tok|..] == rest;
    assert ([tok] + toks)[1..] == toks;
  }

  lemma SolidStarts(tok: string)
    requires Solid(tok)
    ensures tok != "" && !IsSpace(tok[0])
  {
  }

  lemma LaidParts(toks: seq<string>, t: string) returns (w: string, rest: string)
    requires toks != [] && Laid(toks, t)
    ensures AllSpace(w) && Solid(toks[0]) && t == w + (toks[0] + rest) && Laid(toks[1..], rest)
  {
    hide Solid;
    var n, k := Leading(t), |toks[0]|;
    w, rest := t[..n], t[n + k..];
    ThreeSlices(t, n, k);
  }

  lemma ThreeSlices(t: string, n: nat, k: nat)
    requires n + k <= |t|
    ensures t == t[..n] + (t[n..n + k] + t[n + k..])
  {
  }

  lemma {:induction false} LaidConcat(a: seq<string>, s: string, b: seq<string>, t: string)
    requires Laid(a, s) && Laid(b, t)
    ensures Laid(a + b, s + t)
    decreases |a|
  {
    hide Laid, Solid, AllSpace;
    if a == [] {
      assert a + b == b;
      assert AllSpace(s) by { NoTokens(s); }
      LaidAfterSpace(s, b, t);
    } else {
      var w, rest := LaidParts(a, s);
      LaidConcat(a[1..], rest, b, t);
      LaidCons(w, a[0], a[1..] + b, rest + t);
      assert [a[0]] + (a[1..] + b) == a + b;
      Associate(w, a[0], rest, t);
    }
  }

  lemma NoTokens(t: string)
    ensures Laid([], t) <==> AllSpace(t)
  {
  }

  lemma Associate(w: string, x: string, r: string, t: string)
    ensures w + (x + (r + t)) == w + (x + r) + t
  {
  }

  lemma LaidAfterSpace(s: string, b: seq<string>, t: string)
    requires AllSpace(s) && Laid(b, t)
    ensures Laid(b, s + t)
  {
    hide Laid, Solid, AllSpace;
    if b == [] {
      NoTokens(t);
      NoTokens(s + t);
      SpaceAfterSpace(s, t);
    } else {
      var w, rest := LaidParts(b, t);
      SpaceAfterSpace(s, w);
      LaidCons(s + w, b[0], b[1..], rest);
      assert [b[0]] + b[1..] == b;
      assert (s + w) + (b[0] + rest) == s + (w + (b[0] + rest));
    }
  }

  lemma SpaceAfterSpace(s: string, t: string)
    requires AllSpace(s) && AllSpace(t)
    ensures AllSpace(s + t)
  {
  }

  lemma LaidSpace(t: string)
    requires AllSpace(t)
    ensures Laid([], t)
  {
  }

  lemma LaidAlone(tok: string)
    requires Solid(tok)
    ensures Laid([tok], tok)
  {
    LeadingIs(tok, 0);
    assert tok[0..0 + |tok|] == tok && tok[0 + |tok|..] == "" && [tok][1..] == [];
  }

  /** Stripping a laid-out text leaves its tokens. */
  lemma {:induction false} LaidStrips(toks: seq<string>, t: string)
    requires Laid(toks, t)
    ensures ModeAfter(Outside, t) == Outside && Strip(Outside, t) == Concat(toks)
    decreases |toks|
  {
    hide Strip, ModeAfter, Laid, Solid, AllSpace;
    if toks == [] {
      NoTokens(t);
      SpaceStrips(t);
    } else {
      var w, rest := LaidParts(toks, t);
      LaidStrips(toks[1..], rest);
      SpaceStrips(w);
      SolidStrips(toks[0]);
      StripConcat(Outside, toks[0], rest);
      StripConcat(Outside, w, toks[0] + rest);
      assert "" + (toks[0] + Concat(toks[1..])) == toks[0] + Concat(toks[1..]);
    }
  }

  lemma SolidStrips(tok: string)
    requires Solid(tok)
    ensures ModeAfter(Outside, tok) == Outside && Strip(Outside, tok) == tok
  {
  }

  predicate AllSolid(toks: seq<string>) { forall i :: 0 <= i < |toks| ==> Solid(toks[i]) }

  /** Tokens set side by side are laid out too. */
  lemma {:induction false} ConcatIsLaid(toks: seq<string>)
    requires AllSolid(toks)
    ensures Laid(toks, Concat(toks))
    decreases |toks|
  {
    if toks != [] {
      ConcatIsLaid(toks[1..]);
      LaidAlone(toks[0]);
      LaidConcat([toks[0]], toks[0], toks[1..], Concat(toks[1..]));
      assert [toks[0]] + toks[1..] == toks;
    }
  }

  lemma {:induction false} ConcatOfTwo(a: seq<string>, b: seq<string>)
    ensures Concat(a + b) == Concat(a) + Concat(b)
    decreases |a|
  {
    if a == [] {
      assert a + b == b;
    } else {
      assert (a + b)[1..] == a[1..] + b;
      ConcatOfTwo(a[1..], b);
    }
  }

  // ----- the tokens of a value -------------------------------------------------------------------

  function ValueTokens(realText: nat -> string, v: Value): seq<string>
    decreases Weight(v), 0, 0
  {
    match v
    case Null => ["null"]
    case Int(i) => [IntText(i)]
    case UInt(u) => [IntText(u)]
    case Real(x) => [realText(x)]
    case NullString => []
    case String(s) => [Quoted(s)]
    case Bool(b) => [BoolText(b)]
    case Array(e) => ["["] + ItemTokens(realText, e, 0, ArraySize(e)) + ["]"]
    case Object(e) => ["{"] + MemberTokens(realText, e, true) + ["}"]
  }

  function Comma(first: bool): seq<string> { if first then [] else [","] }

  function ItemTokens(realText: nat -> string, e: Entries, i: nat, n: nat): seq<string>
    decreases EntriesWeight(e), 1, n - i
  {
    if i >= n then []
    else Comma(i == 0) + ValueTokens(realText, At(e, i)) + ItemTokens(realText, e, i + 1, n)
  }

  function MemberTokens(realText: nat -> string, e: Entries, first: bool): seq<string>
    decreases EntriesWeight(e), 1, 0
  {
    if e.Nil? then []
    else
      Comma(first) + ([Quoted(KeyText(e.key)), ":"] + ValueTokens(realText, e.value)) + MemberTokens(realText, e.rest, false)
  }

  /** Side by side, the tokens of a value are what FastWriter writes for it. */
  lemma {:induction false} TokensSpellFastText(o: Options, v: Value)
    requires !o.yamlCompatibility && !o.dropNullPlaceholders
    ensures Concat(ValueTokens(o.realText, v)) == FastText(o, v)
    decreases Weight(v), 0, 0
  {
    hide IntText, Quoted;
    match v {
      case Array(e) =>
        var items := ItemTokens(o.realText, e, 0, ArraySize(e));
        ItemTokensSpell(o, e, 0, ArraySize(e));
        Wrapped("[", items, "]");
      case Object(e) =>
        var members := MemberTokens(o.realText, e, true);
        MemberTokensSpell(o, e, true);
        Wrapped("{", members, "}");
      case NullString =>
      case _ => OneToken(FastText(o, v));
    }
  }

  lemma OneToken(t: string)
    ensures Concat([t]) == t
  {
    assert [t][1..] == [] && t + "" == t;
  }

  lemma Wrapped(open: string, inner: seq<string>, close: string)
    ensures Concat([open] + inner + [close]) == open + Concat(inner) + close
  {
    OneToken(open);
    OneToken(close);
    ConcatOfTwo([open] + inner, [close]);
    ConcatOfTwo([open], inner);
  }

  lemma ThreeParts(a: seq<string>, b: seq<string>, c: seq<string>)
    ensures Concat(a + b + c) == Concat(a) + Concat(b) + Concat(c)
  {
    ConcatOfTwo(a + b, c);
    ConcatOfTwo(a, b);
  }

  lemma CommaSpells(first: bool)
    ensures Concat(Comma(first)) == Separator(first)
  {
    OneToken(",");
  }

  lemma {:induction false} ItemTokensSpell(o: Options, e: Entries, i: nat, n: nat)
    requires !o.yamlCompatibility && !o.dropNullPlaceholders
    ensures Concat(ItemTokens(o.realText, e, i, n)) == ItemsText(o, e, i, n)
    decreases EntriesWeight(e), 1, n - i
  {
    hide ValueTokens, FastText, Comma, Separator;
    if i < n {
      CommaSpells(i == 0);
      TokensSpellFastText(o, At(e, i));
      ItemTokensSpell(o, e, i + 1, n);
      ThreeParts(Comma(i == 0), ValueTokens(o.realText, At(e, i)), ItemTokens(o.realText, e, i + 1, n));
    }
  }

  lemma {:induction false} MemberTokensSpell(o: Options, e: Entries, first: bool)
    requires !o.yamlCompatibility && !o.dropNullPlaceholders
    ensures Concat(MemberTokens(o.realText, e, first)) == MembersText(o, e, first)
    decreases EntriesWeight(e), 1, 0
  {
    hide ValueTokens, FastText, Comma, Separator, Quoted;
    if e.Entry? {
      var name, value := Quoted(KeyText(e.key)), ValueTokens(o.realText, e.value);
      CommaSpells(first);
      TokensSpellFastText(o, e.value);
      MemberTokensSpell(o, e.rest, false);
      ThreeParts(Comma(first), [name, ":"] + value, MemberTokens(o.realText, e.rest, false));
      assert [name, ":"] + value == [name] + [":"] + value;
      ThreeParts([name], [":"], value);
      OneToken(name);
      OneToken(":");
      FrontSeparator(Separator(first), name, ":", FastText(o, e.value), MembersText(o, e.rest, false));
      Regroup(Separator(first), name + ":" + FastText(o, e.value), MembersText(o, e.rest, false));
    }
  }

  lemma {:induction false} LaidIsSolid(toks: seq<string>, t: string)
    requires Laid(toks, t)
    ensures AllSolid(toks)
    decreases |toks|
  {
    if toks != [] {
      var w, rest := LaidParts(toks, t);
      LaidIsSolid(toks[1..], rest);
    }
  }

  /** A laid-out text of a value's tokens strips to FastWriter's text, which is laid out itself. */
  lemma LayoutShowsFastText(o: Options, v: Value, t: string)
    requires !o.yamlCompatibility && !o.dropNullPlaceholders && Laid(ValueTokens(o.realText, v), t)
    ensures Strip(Outside, t) == FastText(o, v)
    ensures Laid(ValueTokens(o.realText, v), FastText(o, v))
  {
    hide Laid, Strip, FastText, ValueTokens;
    var toks := ValueTokens(o.realText, v);
    LaidStrips(toks, t);
    TokensSpellFastText(o, v);
    LaidIsSolid(toks, t);
    ConcatIsLaid(toks);
  }
}
