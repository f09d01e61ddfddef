/**
 The little-endian codecs of core/libs/x25519.js, with the scalar clamping and
 u-coordinate masking that sit on top of them.
 */
module LittleEndian {
  import opened Numbers
  import opened Results
  import opened Strings

  function Decode(bytes: seq<Byte>): nat {
    if bytes == [] then 0 else bytes[0] + 256 * Decode(bytes[1..])
  }

  function Encode(x: nat, size: nat): (bytes: seq<Byte>)
    ensures |bytes| == size
  {
    if size == 0 then [] else [x % 256] + Encode(x / 256, size - 1)
  }

  lemma {:induction false} EncodeDecode(bytes: seq<Byte>)
    ensures Encode(Decode(bytes), |bytes|) == bytes
  {
    if bytes != [] {
      EncodeDecode(bytes[1..]);
      DivModUnique(Decode(bytes[1..]), 256, bytes[0]);
    }
  }

  lemma Pow2Byte(n: nat)
    requires n > 0
    ensures Pow2(8 * n) == 256 * Pow2(8 * (n - 1))
  {
    assert Pow2(8) == 256;
    Pow2Add(8, 8 * (n - 1));
  }

  lemma {:induction false} DecodeEncode(x: nat, size: nat)
    ensures Decode(Encode(x, size)) == x % Pow2(8 * size)
  {
    if size == 0 {
      DivModUnique(x, 1, 0);
    } else {
      DecodeEncode(x / 256, size - 1);
      Pow2Byte(size);
      LowDigit(x, Pow2(8 * (size - 1)));
    }
  }

  lemma LowDigit(x: nat, m: nat)
    requires m > 0
    ensures x % (256 * m) == 256 * ((x / 256) % m) + x % 256
  {
    var q, r := (x / 256) / m, (x / 256) % m;
    assert x == q * (256 * m) + (256 * r + x % 256) by {
      assert x / 256 == q * m + r;
    }
    DivModUnique(q, 256 * m, 256 * r + x % 256);
  }

  lemma {:induction false} DecodeBound(bytes: seq<Byte>)
    ensures Decode(bytes) < Pow2(8 * |bytes|)
  {
    if bytes != [] {
      DecodeBound(bytes[1..]);
      Pow2Byte(|bytes|);
    }
  }

  lemma {:induction false} DecodeConcat(a: seq<Byte>, b: seq<Byte>)
    ensures Decode(a + b) == Decode(a) + Pow2(8 * |a|) * Decode(b)
  {
    if a == [] {
      assert a + b == b;
    } else {
      assert (a + b)[1..] == a[1..] + b;
      DecodeConcat(a[1..], b);
      Pow2Byte(|a|);
      ShiftedSum(a[0], Decode(a[1..]), Pow2(8 * (|a| - 1)), Pow2(8 * |a|), Decode(b));
    }
  }

  lemma ShiftedSum(low: int, high: int, p: int, p': int, rest: int)
    requires p' == 256 * p
    ensures low + 256 * (high + p * rest) == (low + 256 * high) + p' * rest
  {
  }

  lemma DecodeAppend(s: seq<Byte>, b: Byte)
    ensures Decode(s + [b]) == Decode(s) + b * Pow2(8 * |s|)
  {
    DecodeConcat(s, [b]);
    DecodeOne(b);
    Commute(b, Pow2(8 * |s|));
  }

  lemma DecodeOne(b: Byte)
    ensures Decode([b]) == b
  {
  }

  lemma Commute(a: int, b: int)
    ensures a * b == b * a
  {
  }

  lemma OrAppends(s: seq<Byte>, b: Byte)
    ensures BitOr(Decode(s), b * Pow2(8 * |s|)) == Decode(s) + b * Pow2(8 * |s|)
  {
    DecodeBound(s);
    OrOfDisjoint(Decode(s), b, 8 * |s|);
  }

  lemma NextByte(bytes: seq<Byte>, i: nat)
    requires i < |bytes|
    ensures BitOr(Decode(bytes[..i]), bytes[i] * Pow2(8 * i)) == Decode(bytes[..i + 1])
  {
    var low := bytes[..i];
    DecodeAppend(low, bytes[i]);
    OrAppends(low, bytes[i]);
    assert bytes[..i + 1] == low + [bytes[i]];
  }

  method BytesToBigInt(bytes: seq<Byte>) returns (r: nat)
    ensures r == Decode(bytes)
  {
    r := 0;
    var i := 0;
    while i < |bytes|
      invariant 0 <= i <= |bytes|
      invariant r == Decode(bytes[..i])
    {
      NextByte(bytes, i);
      r := BitOr(r, bytes[i] * Pow2(8 * i));
      i := i + 1;
    }
    assert bytes[..i] == bytes;
  }

  method BigIntToBytes(x: nat, size: nat) returns (bytes: seq<Byte>)
    ensures bytes == Encode(x, size)
  {
    var out := new Byte[size](_ => 0);
    var v := x;
    var i := 0;
    while i < size
      invariant 0 <= i <= size
      invariant out[..i] + Encode(v, size - i) == Encode(x, size)
    {
      LowByte(v);
      ghost var tail := Encode(v / 256, size - i - 1);
      assert out[..i] + ([v % 256] + tail) == (out[..i] + [v % 256]) + tail;
      out[i] := BitAnd(v, 0xFF);
      assert out[..i + 1] == out[..i] + [v % 256];
      v := v / 256;
      i := i + 1;
    }
    bytes := out[..];
    assert out[..i] + [] == bytes;
  }

  lemma LowByte(v: nat)
    ensures BitAnd(v, 0xFF) == v % 256
  {
    AndLowMask(v, 8);
    assert Pow2(8) == 256;
  }

  // ---------------------------------------------------------------------------
  // Clamping and masking
  // ---------------------------------------------------------------------------

  const TWO_TO_254: nat := 0x4000_0000_0000_0000_0000_0000_0000_0000_0000_0000_0000_0000_0000_0000_0000_0000
  const TWO_TO_248: nat := 0x0100_0000_0000_0000_0000_0000_0000_0000_0000_0000_0000_0000_0000_0000_0000_0000

  /** The scalar read from 32 bytes: bits 0-2 and 255 cleared, bit 254 set. */
  function Clamped(kBytes: seq<Byte>): nat {
    TWO_TO_254 + (Decode(kBytes) % TWO_TO_254) / 8 * 8
  }

  /** The u-coordinate read from 32 bytes: bit 255 ignored. */
  function Masked(uBytes: seq<Byte>): nat {
    Decode(uBytes) % (2 * TWO_TO_254)
  }

  lemma AndEven(a: nat, m: nat)
    ensures BitAnd(a, 2 * m) == 2 * BitAnd(a / 2, m)
  {
    DivModUnique(m, 2, 0);
  }

  lemma {:induction false} OrSetBit(d: nat, k: nat)
    requires d < Pow2(k)
    ensures BitOr(Pow2(k) + d, Pow2(k)) == Pow2(k) + d
  {
    if k == 0 {
      assert BitOr(1, 1) == 1;
    } else {
      OrSetBit(d / 2, k - 1);
      assert (Pow2(k) + d) / 2 == Pow2(k - 1) + d / 2;
    }
  }

  lemma SmallPowers()
    ensures Pow2(5) == 32 && Pow2(6) == 64 && Pow2(7) == 128 && Pow2(8) == 256
  {
  }

  lemma AndHighMask(b: nat)
    requires b < 256
    ensures BitAnd(b, 248) == b / 8 * 8
  {
    AndEven(b, 124);
    AndEven(b / 2, 62);
    AndEven(b / 2 / 2, 31);
    AndLow5(b / 2 / 2 / 2);
  }

  lemma AndLow5(b: nat)
    requires b < 32
    ensures BitAnd(b, 31) == b
  {
    SmallPowers();
    AndMaskOf(b, 5, 32);
    DivModUnique(0, 32, b);
  }

  lemma AndLow7(b: nat)
    ensures BitAnd(b, 127) == b % 128
  {
    SmallPowers();
    AndMaskOf(b, 7, 128);
  }

  lemma OrSixthBit(c: nat)
    requires c < 128
    ensures BitOr(c, 64) == 64 + c % 64
  {
    SmallPowers();
    OrBitOf(c, 6, 64);
  }

  lemma OrBitOf(c: nat, k: nat, m: nat)
    requires Pow2(k) == m && c < 2 * m
    ensures BitOr(c, m) == m + c % m
  {
    if c < m {
      OrOfDisjoint(c, 1, k);
      DivModUnique(0, m, c);
    } else {
      OrSetBit(c - m, k);
      DivModUnique(1, m, c - m);
    }
  }

  /** A 32-byte number seen as its first byte, its middle and its last byte. */
  lemma DecodeSplit32(b: seq<Byte>)
    requires |b| == 32
    ensures Decode(b) == b[0] + 256 * Decode(b[1..31]) + TWO_TO_248 * b[31]
    ensures 256 * Decode(b[1..31]) + 256 <= TWO_TO_248
  {
    Pow2Of248(31);
    assert b == b[..31] + [b[31]];
    assert b[..31] == [b[0]] + b[1..31];
    DecodeConcat(b[..31], [b[31]]);
    DecodeConcat([b[0]], b[1..31]);
    assert Decode([b[0]]) == b[0] && Decode([b[31]]) == b[31];
    assert Pow2(8) == 256;
    DecodeBound(b[1..31]);
  }

  lemma Pow2Of248(n: nat)
    requires n == 31
    ensures Pow2(8 * n) == TWO_TO_248 && Pow2(8 * (n - 1)) * 256 == TWO_TO_248
    ensures Pow2(8 * (n + 1)) == 4 * TWO_TO_254
  {
    var e := n - 23;
    assert Pow2(e) == 0x100 by { SmallPowers(); }
    var e2, p2 := 2 * e, 0x1_0000;
    Pow2Values(e, e, 0x100, 0x100);
    var e4, p4 := 2 * e2, p2 * p2;
    Pow2Values(e2, e2, p2, p2);
    var e8, p8 := 2 * e4, p4 * p4;
    Pow2Values(e4, e4, p4, p4);
    var e16, p16 := 2 * e8, p8 * p8;
    Pow2Values(e8, e8, p8, p8);
    Pow2Values(e16, e8, p16, p8);
    Pow2Values(e16 + e8, e4, p16 * p8, p4);
    Pow2Values(e16 + e8 + e4, e2, p16 * p8 * p4, p2);
    Pow2Values(e16 + e8 + e4 + e2, e, p16 * p8 * p4 * p2, 0x100);
    Pow2Values(e16 + e8 + e4 + e2 + e, e, p16 * p8 * p4 * p2 * 0x100, 0x100);
  }

  lemma ClampMasks(first: Byte, last: Byte)
    ensures BitAnd(first, 248) == first / 8 * 8
    ensures BitAnd(last, 127) == last % 128
    ensures BitOr(last % 128, 64) == 64 + last % 64
  {
    AndHighMask(first);
    AndLow7(last);
    SixthBitOf(last, last % 128);
  }

  lemma SixthBitOf(last: Byte, c: nat)
    requires c == last % 128
    ensures BitOr(c, 64) == 64 + last % 64
  {
    LowSixBits(last, c);
    OrSixthBit(c);
  }

  lemma LowSixBits(last: Byte, c: nat)
    requires c == last % 128
    ensures c % 64 == last % 64
  {
  }

  method ClampScalarBytes(kBytes: seq<Byte>) returns (r: Result<nat>)
    ensures r.Ok? <==> |kBytes| == 32
    ensures r.Ok? ==> r.value == Clamped(kBytes)
  {
    if |kBytes| != 32 {
      return Err("X25519 scalar must be 32 bytes");
    }
    var k := new Byte[32](i requires 0 <= i < 32 => kBytes[i]);
    ClampMasks(kBytes[0], kBytes[31]);
    k[0] := BitAnd(k[0], 248);
    k[31] := BitAnd(k[31], 127);
    k[31] := BitOr(k[31], 64);
    assert k[..][1..31] == kBytes[1..31];
    ClampedBytes(kBytes, k[..]);
    var value := BytesToBigInt(k[..]);
    return Ok(value);
  }

  lemma ClampedBytes(kBytes: seq<Byte>, k: seq<Byte>)
    requires |kBytes| == |k| == 32 && k[1..31] == kBytes[1..31]
    requires k[0] == kBytes[0] / 8 * 8 && k[31] == 64 + kBytes[31] % 64
    ensures Decode(k) == Clamped(kBytes)
  {
    DecodeSplit32(kBytes);
    DecodeSplit32(k);
    ClampedValue(kBytes[0], Decode(kBytes[1..31]), kBytes[31]);
  }

  lemma ClampedValue(first: Byte, middle: nat, last: Byte)
    requires 256 * middle + 256 <= TWO_TO_248
    ensures TWO_TO_254 + ((first + 256 * middle + TWO_TO_248 * last) % TWO_TO_254) / 8 * 8
         == first / 8 * 8 + 256 * middle + TWO_TO_248 * (64 + last % 64)
  {
    DivModUnique(last / 64, TWO_TO_254, first + 256 * middle + TWO_TO_248 * (last % 64));
  }

  method DecodeUCoordinateBytes(uBytes: seq<Byte>) returns (r: Result<nat>)
    ensures r.Ok? <==> |uBytes| == 32
    ensures r.Ok? ==> r.value == Masked(uBytes)
  {
    if |uBytes| != 32 {
      return Err("X25519 u-coordinate must be 32 bytes");
    }
    var u := new Byte[32](i requires 0 <= i < 32 => uBytes[i]);
    AndLow7(uBytes[31]);
    u[31] := BitAnd(u[31], 0x7F);
    var value := BytesToBigInt(u[..]);
    DecodeSplit32(uBytes);
    DecodeSplit32(u[..]);
    assert u[..][1..31] == uBytes[1..31];
    var last: nat := uBytes[31];
    DivModUnique(last / 128, 2 * TWO_TO_254, uBytes[0] + 256 * Decode(uBytes[1..31]) + TWO_TO_248 * (last % 128));
    return Ok(value);
  }

  /** A clamped scalar is the multiple of the cofactor in [2^254, 2^255) that the low 254 bits round down to. */
  lemma ClampedRange(kBytes: seq<Byte>)
    ensures Clamped(kBytes) % 8 == 0
    ensures TWO_TO_254 <= Clamped(kBytes) < 2 * TWO_TO_254
    ensures (Decode(kBytes) - Clamped(kBytes)) % TWO_TO_254 < 8
  {
    var d := Decode(kBytes);
    var q, low := d / TWO_TO_254, d % TWO_TO_254;
    DivModUnique(q - 1, TWO_TO_254, low % 8);
    assert d - Clamped(kBytes) == (q - 1) * TWO_TO_254 + low % 8;
  }

  /** A masked u-coordinate is below 2^255, and differs from the number that was given by a multiple of it. */
  lemma MaskedRange(uBytes: seq<Byte>)
    ensures Masked(uBytes) < 2 * TWO_TO_254
    ensures (Decode(uBytes) - Masked(uBytes)) % (2 * TWO_TO_254) == 0
  {
    var q := Decode(uBytes) / (2 * TWO_TO_254);
    DivModUnique(q, 2 * TWO_TO_254, 0);
    assert Decode(uBytes) - Masked(uBytes) == q * (2 * TWO_TO_254);
  }
}
