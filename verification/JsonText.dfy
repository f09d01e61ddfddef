/**
 JSON.stringify on the leaves of a value: numbers, and strings of UTF-16 code units with the
 escapes of section 7 of RFC 8259. Every lemma here is about reading the text back without
 knowing where it ends.
 */
module JsonText {
  import opened Strings

  type CodeUnit = u: int | 0 <= u < 0x1_0000
  type Text = seq<CodeUnit>

  const QUOTE: CodeUnit := 34
  const COMMA: CodeUnit := 44
  const MINUS: CodeUnit := 45
  const COLON: CodeUnit := 58
  const OPEN_BRACKET: CodeUnit := 91
  const BACKSLASH: CodeUnit := 92
  const CLOSE_BRACKET: CodeUnit := 93
  const LETTER_U: CodeUnit := 117
  const OPEN_BRACE: CodeUnit := 123
  const CLOSE_BRACE: CodeUnit := 125

  const NULL: Text := [110, 117, 108, 108]
  const TRUE: Text := [116, 114, 117, 101]
  const FALSE: Text := [102, 97, 108, 115, 101]
  const UNDEFINED: Text := [117, 110, 100, 101, 102, 105, 110, 101, 100]

  // ---------------------------------------------------------------------------
  // Integers
  // ---------------------------------------------------------------------------

  function Number(n: int): (t: Text)
    ensures t != [] && (IsDigit(t[0]) || t[0] == MINUS)
  {
    if n >= 0 then Digits(n) else [MINUS] + Digits(-n)
  }

  /** Where one of two equal texts has the longer run, the run covers what follows the other. */
  lemma LongerRun(x: Text, y: Text, r: Text, r': Text)
    requires x + r == y + r' && |x| > |y|
    ensures r' != [] && r'[0] in x
  {
    assert x[|y|] == (x + r)[|y|] == (y + r')[|y|] == r'[0];
  }

  lemma DigitsUnique(a: nat, b: nat, r: Text, r': Text)
    requires Digits(a) + r == Digits(b) + r'
    requires (r == [] || !IsDigit(r[0])) && (r' == [] || !IsDigit(r'[0]))
    ensures a == b && r == r'
  {
    var x, y := Digits(a), Digits(b);
    if |x| > |y| {
      LongerRun(x, y, r, r');
    } else if |y| > |x| {
      LongerRun(y, x, r', r);
    }
    SplitEqual(x, y, r, r');
    ValueOfDigits(a);
    ValueOfDigits(b);
  }

  lemma NumberSign(n: int)
    ensures n < 0 <==> Number(n)[0] == MINUS
  {
    if n >= 0 {
      assert Digits(n)[0] in Digits(n);
    }
  }

  lemma NumberUnique(m: int, n: int, r: Text, r': Text)
    requires Number(m) + r == Number(n) + r'
    requires (r == [] || !IsDigit(r[0])) && (r' == [] || !IsDigit(r'[0]))
    ensures m == n && r == r'
  {
    assert Number(m)[0] == Number(n)[0] by {
      assert Number(m)[0] == (Number(m) + r)[0] && Number(n)[0] == (Number(n) + r')[0];
    }
    NumberSign(m);
    NumberSign(n);
    if m >= 0 {
      DigitsUnique(m, n, r, r');
    } else {
      NumberTail(m, r);
      NumberTail(n, r');
      SplitEqual([MINUS], [MINUS], Digits(-m) + r, Digits(-n) + r');
      DigitsUnique(-m, -n, r, r');
    }
  }

  lemma NumberTail(n: int, r: Text)
    requires n < 0
    ensures Number(n) + r == [MINUS] + (Digits(-n) + r)
  {
  }

  // ---------------------------------------------------------------------------
  // Strings
  // ---------------------------------------------------------------------------

  predicate IsHigh(c: CodeUnit) { 0xD800 <= c <= 0xDBFF }
  predicate IsLow(c: CodeUnit) { 0xDC00 <= c <= 0xDFFF }

  function HexDigit(d: int): CodeUnit
    requires 0 <= d < 16
  {
    if d < 10 then 48 + d else 87 + d
  }

  function UnicodeEscape(c: CodeUnit): (t: Text)
    ensures |t| == 6
  {
    [BACKSLASH, LETTER_U, HexDigit(c / 0x1000), HexDigit(c / 0x100 % 16), HexDigit(c / 16 % 16), HexDigit(c % 16)]
  }

  /** The letter of a two-unit escape, or 0 where there is none. */
  function ShortEscape(c: CodeUnit): CodeUnit {
    if c == QUOTE || c == BACKSLASH then c
    else if c == 8 then 98 else if c == 12 then 102 else if c == 10 then 110
    else if c == 13 then 114 else if c == 9 then 116 else 0
  }

  predicate StartsPair(s: Text) {
    |s| >= 2 && IsHigh(s[0]) && IsLow(s[1])
  }

  /** How many units of s the first piece of output covers. */
  function HeadLength(s: Text): (k: nat)
    requires s != []
    ensures 1 <= k <= |s|
  {
    if StartsPair(s) then 2 else 1
  }

  /** The first piece of output: a surrogate pair, an escape, or one literal unit. */
  function Head(s: Text): (t: Text)
    requires s != []
    ensures t != []
  {
    var c := s[0];
    if StartsPair(s) then s[..2]
    else if IsHigh(c) || IsLow(c) then UnicodeEscape(c)
    else if ShortEscape(c) != 0 then [BACKSLASH, ShortEscape(c)]
    else if c < 32 then UnicodeEscape(c)
    else [c]
  }

  function Escape(s: Text): Text {
    if s == [] then [] else Head(s) + Escape(s[HeadLength(s)..])
  }

  function Quote(s: Text): Text {
    [QUOTE] + Escape(s) + [QUOTE]
  }

  lemma HexInjective(c: CodeUnit, d: CodeUnit)
    requires UnicodeEscape(c) == UnicodeEscape(d)
    ensures c == d
  {
    var x, y := UnicodeEscape(c), UnicodeEscape(d);
    assert x[2] == y[2] && x[3] == y[3] && x[4] == y[4] && x[5] == y[5];
    HexDigits(c);
    HexDigits(d);
  }

  lemma HexDigits(c: CodeUnit)
    ensures c == 0x1000 * (c / 0x1000) + 0x100 * (c / 0x100 % 16) + 16 * (c / 16 % 16) + c % 16
  {
    assert c / 0x1000 == c / 0x100 / 16;
    assert c / 0x100 == c / 16 / 16;
  }

  /** The first unit of a piece says which kind of piece it is. */
  lemma HeadShape(s: Text)
    requires s != []
    ensures Head(s)[0] != QUOTE
    ensures Head(s)[0] == BACKSLASH <==> |Head(s)| > 1 && !StartsPair(s)
    ensures IsHigh(Head(s)[0]) <==> StartsPair(s)
    ensures Head(s)[0] == BACKSLASH ==> (|Head(s)| == 6 <==> Head(s)[1] == LETTER_U)
    ensures Head(s)[0] == BACKSLASH && |Head(s)| == 6 ==> Head(s) == UnicodeEscape(s[0])
    ensures Head(s)[0] == BACKSLASH && |Head(s)| != 6 ==>
            Head(s) == [BACKSLASH, ShortEscape(s[0])] && ShortEscape(s[0]) != 0
    ensures Head(s)[0] != BACKSLASH ==> Head(s) == s[..HeadLength(s)]
  {
  }

  /** Equal texts that start with a piece start with the same piece, of the same units. */
  lemma HeadUnique(s: Text, t: Text, r: Text, r': Text)
    requires s != [] && t != []
    requires Head(s) + r == Head(t) + r'
    ensures HeadLength(s) == HeadLength(t) && s[..HeadLength(s)] == t[..HeadLength(t)]
    ensures r == r'
  {
    var x, y := Head(s), Head(t);
    HeadShape(s);
    HeadShape(t);
    assert (x + r)[0] == x[0] && (y + r')[0] == y[0];
    if x[0] == BACKSLASH {
      assert (x + r)[1] == x[1] && (y + r')[1] == y[1];
    }
    SplitEqual(x, y, r, r');
    if x[0] == BACKSLASH {
      if |x| == 6 {
        HexInjective(s[0], t[0]);
      } else {
        assert x[1] == y[1];
      }
      assert s[..1] == [s[0]] && t[..1] == [t[0]];
    }
  }

  lemma EscapeStep(s: Text, r: Text)
    requires s != []
    ensures Escape(s) + [QUOTE] + r == Head(s) + (Escape(s[HeadLength(s)..]) + [QUOTE] + r)
    ensures s == s[..HeadLength(s)] + s[HeadLength(s)..]
  {
  }

  lemma {:induction false} EscapeUnique(s: Text, t: Text, r: Text, r': Text)
    requires Escape(s) + [QUOTE] + r == Escape(t) + [QUOTE] + r'
    ensures s == t && r == r'
    decreases |s| + |t|
  {
    EscapeEmpty(s, r);
    EscapeEmpty(t, r');
    if s == [] {
      assert Escape([]) + [QUOTE] + r == [QUOTE] + r;
      assert Escape([]) + [QUOTE] + r' == [QUOTE] + r';
      SplitEqual([QUOTE], [QUOTE], r, r');
    } else {
      var s', t' := s[HeadLength(s)..], t[HeadLength(t)..];
      EscapeStep(s, r);
      EscapeStep(t, r');
      HeadUnique(s, t, Escape(s') + [QUOTE] + r, Escape(t') + [QUOTE] + r');
      EscapeUnique(s', t', r, r');
    }
  }

  lemma EscapeEmpty(s: Text, r: Text)
    ensures (Escape(s) + [QUOTE] + r)[0] == QUOTE <==> s == []
  {
    if s != [] {
      HeadShape(s);
      assert (Escape(s) + [QUOTE] + r)[0] == Head(s)[0];
    }
  }

  lemma QuoteUnique(s: Text, t: Text, r: Text, r': Text)
    requires Quote(s) + r == Quote(t) + r'
    ensures s == t && r == r'
  {
    assert (Quote(s) + r)[1..] == Escape(s) + [QUOTE] + r;
    assert (Quote(t) + r')[1..] == Escape(t) + [QUOTE] + r';
    EscapeUnique(s, t, r, r');
  }
}
