/**
 core/crypto/auth.js, `_base64UrlEncode` and `_base64UrlDecode`: base64 (sections 4 and 5 of RFC 4648) with
 the padding cut off and put back.
 */
module Base64 {
  import opened Strings

  type Sextet = s: nat | s < 64

  const PAD: char := '='

  // ---------------------------------------------------------------------------
  // The alphabet
  // ---------------------------------------------------------------------------

  function Symbol(s: Sextet): (c: char)
    ensures c != PAD && c != '.' && c != '-' && c != '_'
    ensures SymbolValue(c) == s
  {
    if s < 26 then 'A' + s as char
    else if s < 52 then 'a' + (s - 26) as char
    else if s < 62 then '0' + (s - 52) as char
    else if s == 62 then '+'
    else '/'
  }

  /** The value of a character of the standard or the url alphabet, and -1 for any other character. */
  function SymbolValue(c: char): (v: int)
    ensures -1 <= v < 64
  {
    if 'A' <= c <= 'Z' then (c - 'A') as int
    else if 'a' <= c <= 'z' then (c - 'a') as int + 26
    else if '0' <= c <= '9' then (c - '0') as int + 52
    else if c == '+' || c == '-' then 62
    else if c == '/' || c == '_' then 63
    else -1
  }

  function Symbols(s: seq<Sextet>): (text: string)
    ensures |text| == |s|
  {
    seq(|s|, i requires 0 <= i < |s| => Symbol(s[i]))
  }

  // ---------------------------------------------------------------------------
  // Bytes and sextets
  // ---------------------------------------------------------------------------

  /** Three bytes make four sextets; one or two bytes left over make two or three. */
  function Sextets(b: Bytes): (s: seq<Sextet>)
    ensures |s| == (4 * |b| + 2) / 3
  {
    if |b| == 0 then []
    else if |b| == 1 then [b[0] / 4, b[0] % 4 * 16]
    else if |b| == 2 then [b[0] / 4, b[0] % 4 * 16 + b[1] / 16, b[1] % 16 * 4]
    else [b[0] / 4, b[0] % 4 * 16 + b[1] / 16, b[1] % 16 * 4 + b[2] / 64, b[2] % 64] + Sextets(b[3..])
  }

  function First(x: Sextet, y: Sextet): Byte { x * 4 + y / 16 }
  function Second(y: Sextet, z: Sextet): Byte { y % 16 * 16 + z / 4 }
  function Third(z: Sextet, t: Sextet): Byte { z % 4 * 64 + t }

  /** A single sextet left over holds no whole byte. */
  function BytesOf(s: seq<Sextet>): Bytes {
    if |s| < 2 then []
    else if |s| == 2 then [First(s[0], s[1])]
    else if |s| == 3 then [First(s[0], s[1]), Second(s[1], s[2])]
    else [First(s[0], s[1]), Second(s[1], s[2]), Third(s[2], s[3])] + BytesOf(s[4..])
  }

  /** The pieces of a byte come together again. */
  lemma Regrouped(x: Byte, y: Byte, z: Byte)
    ensures First(x / 4, x % 4 * 16 + y / 16) == x
    ensures Second(x % 4 * 16 + y / 16, y % 16 * 4 + z / 64) == y
    ensures Third(y % 16 * 4 + z / 64, z % 64) == z
  {
  }

  lemma {:induction false} BytesOfSextets(b: Bytes)
    ensures BytesOf(Sextets(b)) == b
  {
    if |b| == 1 {
      Regrouped(b[0], 0, 0);
    } else if |b| == 2 {
      Regrouped(b[0], b[1], 0);
    } else if |b| >= 3 {
      Regrouped(b[0], b[1], b[2]);
      BytesOfSextets(b[3..]);
      assert Sextets(b)[4..] == Sextets(b[3..]);
      assert b == b[..3] + b[3..];
    }
  }

  // ---------------------------------------------------------------------------
  // buf.toString('base64') and Buffer.from(text, 'base64')
  // ---------------------------------------------------------------------------

  function Padding(n: nat): string {
    seq(n, _ => PAD)
  }

  function PadLength(n: nat): nat {
    if n % 4 == 0 then 0 else 4 - n % 4
  }

  function Encode(b: Bytes): string {
    var body := Symbols(Sextets(b));
    body + Padding(PadLength(|body|))
  }

  /** Characters outside the alphabet are skipped, and the padding ends the text. */
  function SextetsIn(text: string): seq<Sextet> {
    if text == "" || text[0] == PAD then []
    else (if SymbolValue(text[0]) < 0 then [] else [SymbolValue(text[0])]) + SextetsIn(text[1..])
  }

  function Decode(text: string): Bytes {
    BytesOf(SextetsIn(text))
  }

  lemma {:induction false} SextetsInSymbols(s: seq<Sextet>, n: nat)
    ensures SextetsIn(Symbols(s) + Padding(n)) == s
  {
    var text := Symbols(s) + Padding(n);
    if s == [] {
      assert n == 0 ==> text == "";
    } else {
      SextetsInSymbols(s[1..], n);
      assert text[1..] == Symbols(s[1..]) + Padding(n);
    }
  }

  /** Section 4 of RFC 4648: decoding undoes encoding on every byte string. */
  lemma DecodeEncode(b: Bytes)
    ensures Decode(Encode(b)) == b
  {
    SextetsInSymbols(Sextets(b), PadLength(|Sextets(b)|));
    BytesOfSextets(b);
  }

  // ---------------------------------------------------------------------------
  // The url form
  // ---------------------------------------------------------------------------

  /** `text.replace` of one character by another throughout. */
  function Replace(text: string, x: char, y: char): (r: string)
    ensures |r| == |text|
    ensures forall i :: 0 <= i < |text| ==> r[i] == if text[i] == x then y else text[i]
  {
    seq(|text|, i requires 0 <= i < |text| => if text[i] == x then y else text[i])
  }

  function Without(text: string, x: char): (r: string)
    ensures x !in r
  {
    if text == "" then "" else (if text[0] == x then "" else [text[0]]) + Without(text[1..], x)
  }

  function UrlEncode(b: Bytes): string {
    Without(Replace(Replace(Encode(b), '+', '-'), '/', '_'), PAD)
  }

  function Repaired(text: string): string {
    var standard := Replace(Replace(text, '-', '+'), '_', '/');
    standard + Padding(PadLength(|standard|))
  }

  function UrlDecode(text: string): Bytes {
    Decode(Repaired(text))
  }

  lemma {:induction false} WithoutPadding(body: string, n: nat)
    requires PAD !in body
    ensures Without(body + Padding(n), PAD) == body
    decreases |body|, n
  {
    var text := body + Padding(n);
    if body != "" {
      WithoutPadding(body[1..], n);
      assert text[1..] == body[1..] + Padding(n);
      assert body == [body[0]] + body[1..];
    } else if n > 0 {
      WithoutPadding(body, n - 1);
      assert text[1..] == body + Padding(n - 1);
    } else {
      assert text == "";
    }
  }

  function UrlBody(b: Bytes): (body: string)
    ensures |body| == |Sextets(b)|
  {
    Replace(Replace(Symbols(Sextets(b)), '+', '-'), '/', '_')
  }

  lemma UrlEncodeIsBody(b: Bytes)
    ensures UrlEncode(b) == UrlBody(b)
  {
    var n := PadLength(|Sextets(b)|);
    assert Replace(Replace(Encode(b), '+', '-'), '/', '_') == UrlBody(b) + Padding(n);
    WithoutPadding(UrlBody(b), n);
  }

  /** Cutting the padding off and putting it back gives the standard text again. */
  lemma PaddingRepaired(b: Bytes)
    ensures Repaired(UrlEncode(b)) == Encode(b)
  {
    UrlEncodeIsBody(b);
    assert Replace(Replace(UrlBody(b), '-', '+'), '_', '/') == Symbols(Sextets(b));
  }

  /** Section 5 of RFC 4648: the url form decodes to the bytes it came from. */
  lemma UrlRoundTrip(b: Bytes)
    ensures UrlDecode(UrlEncode(b)) == b
  {
    PaddingRepaired(b);
    DecodeEncode(b);
  }

  /** The url form needs no escaping in a url and holds no dot. */
  lemma UrlAlphabet(b: Bytes)
    ensures forall c <- UrlEncode(b) :: SymbolValue(c) >= 0 && c != '+' && c != '/' && c != PAD && c != '.'
  {
    UrlEncodeIsBody(b);
  }

  // ---------------------------------------------------------------------------
  // What the symbols stand for
  // ---------------------------------------------------------------------------

  const UPPER: string := "ABCDEFGHIJKLMNOPQRSTUVWXYZ"
  const LOWER: string := "abcdefghijklmnopqrstuvwxyz"
  const DECIMAL: string := "0123456789"

  /** Table 2 of RFC 4648. */
  function UrlSymbol(s: Sextet): char {
    (UPPER + LOWER + DECIMAL + "-_")[s]
  }

  lemma Letter(k: nat)
    requires k < 26
    ensures UPPER[k] == 'A' + k as char && LOWER[k] == 'a' + k as char
  {
  }

  lemma SymbolInTable(s: Sextet)
    ensures UrlSymbol(s) == if s < 62 then Symbol(s) else if s == 62 then '-' else '_'
  {
    if s < 26 {
      Letter(s);
    } else if s < 52 {
      Letter(s - 26);
    }
  }

  /** The url form is the sextets written in that table. */
  lemma UrlText(b: Bytes)
    ensures |UrlEncode(b)| == |Sextets(b)|
    ensures forall i :: 0 <= i < |Sextets(b)| ==> UrlEncode(b)[i] == UrlSymbol(Sextets(b)[i])
  {
    UrlEncodeIsBody(b);
    forall i | 0 <= i < |Sextets(b)| ensures UrlEncode(b)[i] == UrlSymbol(Sextets(b)[i]) {
      SymbolInTable(Sextets(b)[i]);
    }
  }

  function Base64Number(a: int, b: int, c: int, d: int): int { ((a * 64 + b) * 64 + c) * 64 + d }
  function Base256Number(a: int, b: int, c: int): int { (a * 256 + b) * 256 + c }

  /** Every three bytes are the number that their four sextets are. */
  lemma {:induction false} GroupValue(b: Bytes, i: nat)
    requires 3 * i + 3 <= |b|
    ensures 4 * i + 4 <= |Sextets(b)|
    ensures var s := Sextets(b);
            Base64Number(s[4 * i], s[4 * i + 1], s[4 * i + 2], s[4 * i + 3])
            == Base256Number(b[3 * i], b[3 * i + 1], b[3 * i + 2])
  {
    if i > 0 {
      GroupValue(b[3..], i - 1);
      assert Sextets(b)[4..] == Sextets(b[3..]);
    }
  }

  predicate FilledUp(b: Bytes, s: seq<Sextet>) {
    var n := |s|;
    && (|b| % 3 == 1 ==>
        n >= 2 && Base64Number(s[n - 2], s[n - 1], 0, 0) == Base256Number(b[|b| - 1], 0, 0))
    && (|b| % 3 == 2 ==>
        n >= 3 && Base64Number(s[n - 3], s[n - 2], s[n - 1], 0) == Base256Number(b[|b| - 2], b[|b| - 1], 0))
  }

  lemma FilledUpBehind(x: Bytes, y: seq<Sextet>, b: Bytes, s: seq<Sextet>)
    requires |x| == 3 && FilledUp(b, s)
    ensures FilledUp(x + b, y + s)
  {
    assert |x + b| % 3 == |b| % 3;
  }

  /** One or two bytes left over are filled up with zeros. */
  lemma {:induction false} LeftoverValue(b: Bytes)
    ensures FilledUp(b, Sextets(b))
  {
    if |b| >= 3 {
      LeftoverValue(b[3..]);
      FilledUpBehind(b[..3], Sextets(b)[..4], b[3..], Sextets(b[3..]));
      assert b == b[..3] + b[3..] && Sextets(b) == Sextets(b)[..4] + Sextets(b[3..]);
    } else {
      LeftoverSmall(b);
    }
  }

  lemma LeftoverSmall(b: Bytes)
    requires |b| < 3
    ensures FilledUp(b, Sextets(b))
  {
    if |b| == 1 {
      OneLeft(b, Sextets(b), b[0]);
    } else if |b| == 2 {
      TwoLeft(b, Sextets(b), b[0], b[1]);
    }
  }

  lemma OneLeft(b: Bytes, s: seq<Sextet>, x: Byte)
    requires |b| == 1 && b[0] == x && |s| == 2 && s[0] == x / 4 && s[1] == x % 4 * 16
    ensures FilledUp(b, s)
  {
    assert Base64Number(s[0], s[1], 0, 0) == Base256Number(x, 0, 0);
  }

  lemma TwoLeft(b: Bytes, s: seq<Sextet>, x: Byte, y: Byte)
    requires |b| == 2 && b[0] == x && b[1] == y
    requires |s| == 3 && s[0] == x / 4 && s[1] == x % 4 * 16 + y / 16 && s[2] == y % 16 * 4
    ensures FilledUp(b, s)
  {
    assert Base64Number(s[0], s[1], s[2], 0) == Base256Number(x, y, 0);
  }
}
