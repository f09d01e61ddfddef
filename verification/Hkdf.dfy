/**
 core/libs/hkdf.js: HMAC over BLAKE2b (section 2 of RFC 2104) and HKDF (RFC 5869).
 */
module Hkdf {
  import opened Numbers
  import opened Results
  import opened Strings

  const BLOCK: nat := 128  // input block of BLAKE2b
  const HASH_LENGTH: nat := 64

  /** The functions taken from elsewhere: BLAKE2b with 64 bytes of output, and HMAC-SHA512. */
  datatype Primitives = Primitives(blake2b: Bytes -> Bytes, hmacSha512: (Bytes, Bytes) -> Bytes)

  ghost predicate Sound(p: Primitives) {
    && (forall data :: |p.blake2b(data)| == HASH_LENGTH)
    && (forall key, data :: |p.hmacSha512(key, data)| == HASH_LENGTH)
  }

  datatype Hash = Sha512 | Blake2b | Unsupported

  // ---------------------------------------------------------------------------
  // HMAC
  // ---------------------------------------------------------------------------

  lemma {:induction false} XorBound(a: nat, b: nat, k: nat)
    requires a < Pow2(k) && b < Pow2(k)
    ensures BitXor(a, b) < Pow2(k)
    decreases k
  {
    if k > 0 && a != 0 && b != 0 {
      XorBound(a / 2, b / 2, k - 1);
    }
  }

  function XorByte(a: Byte, b: Byte): Byte {
    assert Pow2(8) == 256;
    XorBound(a, b, 8);
    BitXor(a, b)
  }

  function Zeros(n: nat): (z: Bytes)
    ensures |z| == n && forall i :: 0 <= i < n ==> z[i] == 0
  {
    seq(n, _ => 0)
  }

  /** The key of section 2 of RFC 2104: hashed when longer than a block, then padded with zeros. */
  function BlockKey(p: Primitives, key: Bytes): (k: Bytes)
    requires Sound(p)
    ensures |k| == BLOCK
  {
    var k := if |key| > BLOCK then p.blake2b(key) else key;
    k + Zeros(BLOCK - |k|)
  }

  function XorAll(k: Bytes, pad: Byte): (r: Bytes)
    ensures |r| == |k|
  {
    seq(|k|, i requires 0 <= i < |k| => XorByte(k[i], pad))
  }

  /** H((K xor opad) || H((K xor ipad) || text)) */
  function Hmac(p: Primitives, key: Bytes, text: Bytes): (r: Bytes)
    requires Sound(p)
    ensures |r| == HASH_LENGTH
  {
    var k := BlockKey(p, key);
    p.blake2b(XorAll(k, 0x5c) + p.blake2b(XorAll(k, 0x36) + text))
  }

  method HmacBlake2b(p: Primitives, key: Bytes, data: Bytes) returns (r: Bytes)
    requires Sound(p)
    ensures r == Hmac(p, key, data)
    ensures |key| == 128 ==>
            var outer: Bytes := seq(128, i requires 0 <= i < 128 => XorByte(key[i], 0x5c));
            var inner: Bytes := seq(128, i requires 0 <= i < 128 => XorByte(key[i], 0x36));
            r == p.blake2b(outer + p.blake2b(inner + data))
  {
    var k := key;
    if |k| > BLOCK {
      k := p.blake2b(k);
    }
    if |k| < BLOCK {
      var tmp := new Byte[BLOCK](_ => 0);
      var j := 0;
      while j < |k|
        invariant 0 <= j <= |k|
        invariant forall i :: 0 <= i < BLOCK ==> tmp[i] == if i < j then k[i] else 0
      {
        tmp[j] := k[j];
        j := j + 1;
      }
      assert tmp[..] == k + Zeros(BLOCK - |k|);
      k := tmp[..];
    } else {
      assert k == k + Zeros(0);
    }
    assert k == BlockKey(p, key);
    var oKeyPad, iKeyPad := XorPads(k);
    var inner := p.blake2b(iKeyPad + data);
    r := p.blake2b(oKeyPad + inner);
  }

  method XorPads(k: Bytes) returns (oKeyPad: Bytes, iKeyPad: Bytes)
    requires |k| == BLOCK
    ensures oKeyPad == XorAll(k, 0x5c) && iKeyPad == XorAll(k, 0x36)
  {
    var o := new Byte[BLOCK](_ => 0);
    var n := new Byte[BLOCK](_ => 0);
    var i := 0;
    while i < BLOCK
      invariant 0 <= i <= BLOCK
      invariant forall j :: 0 <= j < i ==> o[j] == XorByte(k[j], 0x5c) && n[j] == XorByte(k[j], 0x36)
    {
      o[i] := XorByte(k[i], 0x5c);
      n[i] := XorByte(k[i], 0x36);
      i := i + 1;
    }
    oKeyPad, iKeyPad := o[..], n[..];
  }

  /** Trailing zeros of a key that fits in a block do not matter. */
  lemma PaddedKey(p: Primitives, key: Bytes, n: nat, text: Bytes)
    requires Sound(p) && |key| + n <= 128
    ensures Hmac(p, key + Zeros(n), text) == Hmac(p, key, text)
  {
    assert BlockKey(p, key + Zeros(n)) == BlockKey(p, key);
  }

  // ---------------------------------------------------------------------------
  // HKDF
  // ---------------------------------------------------------------------------

  function Prf(p: Primitives, hash: Hash, key: Bytes, data: Bytes): (r: Bytes)
    requires Sound(p) && hash != Unsupported
    ensures |r| == HASH_LENGTH
  {
    match hash
    case Sha512 => p.hmacSha512(key, data)
    case Blake2b => Hmac(p, key, data)
  }

  method CallPrf(p: Primitives, hash: Hash, key: Bytes, data: Bytes) returns (r: Bytes)
    requires Sound(p) && hash != Unsupported
    ensures r == Prf(p, hash, key, data)
  {
    match hash {
      case Sha512 => r := p.hmacSha512(key, data);
      case Blake2b => r := HmacBlake2b(p, key, data);
    }
  }

  function Extract(p: Primitives, hash: Hash, salt: Bytes, ikm: Bytes): (r: Bytes)
    requires Sound(p) && hash != Unsupported
    ensures |r| == HASH_LENGTH
  {
    Prf(p, hash, if salt == [] then Zeros(HASH_LENGTH) else salt, ikm)
  }

  method HkdfExtract(p: Primitives, hash: Hash, salt: Bytes, ikm: Bytes) returns (r: Result<Bytes>)
    requires Sound(p)
    ensures r.Ok? <==> hash != Unsupported
    ensures r.Ok? ==> r.value == Extract(p, hash, salt, ikm)
  {
    if hash == Unsupported {
      return Err("hkdf: unsupported hash");
    }
    var saltBytes := if |salt| == 0 then Zeros(HASH_LENGTH) else salt;
    var prk := CallPrf(p, hash, saltBytes, ikm);
    return Ok(prk);
  }

  /** T(i) of section 2.3 of RFC 5869, with the counter as a number. */
  function T(p: Primitives, hash: Hash, prk: Bytes, info: Bytes, i: nat): (r: Bytes)
    requires Sound(p) && hash != Unsupported && i <= 255
    ensures |r| == if i == 0 then 0 else HASH_LENGTH
  {
    if i == 0 then [] else Prf(p, hash, prk, T(p, hash, prk, info, i - 1) + info + [i])
  }

  /** T(1) | ... | T(n). */
  function Stream(p: Primitives, hash: Hash, prk: Bytes, info: Bytes, n: nat): (r: Bytes)
    requires Sound(p) && hash != Unsupported && n <= 255
    ensures |r| == HASH_LENGTH * n
  {
    if n == 0 then [] else Stream(p, hash, prk, info, n - 1) + T(p, hash, prk, info, n)
  }

  predicate ValidLength(length: int) {
    0 < length <= 255 * HASH_LENGTH
  }

  function BlockCount(length: int): (n: nat)
    requires ValidLength(length)
    ensures n <= 255 && HASH_LENGTH * (n - 1) < length <= HASH_LENGTH * n
  {
    (length + HASH_LENGTH - 1) / HASH_LENGTH
  }

  /** The first `length` bytes of the stream. */
  function Expand(p: Primitives, hash: Hash, prk: Bytes, info: Bytes, length: int): (r: Bytes)
    requires Sound(p) && hash != Unsupported && ValidLength(length)
    ensures |r| == length
  {
    Stream(p, hash, prk, info, BlockCount(length))[..length]
  }

  method HkdfExpand(p: Primitives, hash: Hash, prk: Bytes, info: Bytes, length: int) returns (r: Result<Bytes>)
    requires Sound(p)
    ensures r.Ok? <==> hash != Unsupported && ValidLength(length)
    ensures r.Ok? ==> r.value == Expand(p, hash, prk, info, length)
  {
    if hash == Unsupported {
      return Err("hkdf: unsupported hash");
    }
    if length <= 0 || length > 255 * HASH_LENGTH {
      return Err("hkdfExpand: invalid length");
    }
    var okm := new Byte[length](_ => 0);
    var n := BlockCount(length);
    var pos, i := 0, 1;
    var t: Bytes := [];
    while i <= n
      invariant 1 <= i <= n + 1
      invariant t == T(p, hash, prk, info, i - 1)
      invariant pos == Filled(length, i - 1)
      invariant okm[..pos] == Stream(p, hash, prk, info, i - 1)[..pos]
    {
      FilledStep(length, i);
      t := NextBlock(p, hash, prk, info, i, t);
      var take := if HASH_LENGTH < length - pos then HASH_LENGTH else length - pos;
      Copy(okm, pos, t[..take]);
      StreamGrows(p, hash, prk, info, i, pos, take);
      pos := pos + take;
      i := i + 1;
    }
    AllFilled(length);
    assert okm[..] == okm[..length];
    return Ok(okm[..]);
  }

  /** One round; the source stores the counter in a byte array, so modulo 256. */
  method NextBlock(p: Primitives, hash: Hash, prk: Bytes, info: Bytes, i: nat, previous: Bytes) returns (t: Bytes)
    requires Sound(p) && hash != Unsupported && 1 <= i <= 255
    requires previous == T(p, hash, prk, info, i - 1)
    ensures t == T(p, hash, prk, info, i)
  {
    var counter: Byte := i % 256;
    t := CallPrf(p, hash, prk, previous + info + [counter]);
  }

  /** How much of the output is written after i rounds. */
  function Filled(length: int, i: nat): (pos: nat)
    requires ValidLength(length) && i <= BlockCount(length)
    ensures pos <= length && pos <= HASH_LENGTH * i
  {
    if HASH_LENGTH * i < length then HASH_LENGTH * i else length
  }

  /** Before the last block is written it starts at a multiple of 64, and the counter fits in a byte. */
  lemma FilledStep(length: int, i: nat)
    requires ValidLength(length) && 1 <= i <= BlockCount(length)
    ensures i < 256 && Filled(length, i - 1) == HASH_LENGTH * (i - 1) < length
    ensures var pos := Filled(length, i - 1);
            Filled(length, i) == pos + if HASH_LENGTH < length - pos then HASH_LENGTH else length - pos
  {
  }

  lemma AllFilled(length: int)
    requires ValidLength(length)
    ensures Filled(length, BlockCount(length)) == length
  {
  }

  method Copy(okm: array<Byte>, pos: nat, bytes: Bytes)
    requires pos + |bytes| <= okm.Length
    modifies okm
    ensures okm[..pos + |bytes|] == old(okm[..pos]) + bytes
  {
    var j := 0;
    while j < |bytes|
      invariant 0 <= j <= |bytes|
      invariant okm[..pos + j] == old(okm[..pos]) + bytes[..j]
    {
      okm[pos + j] := bytes[j];
      j := j + 1;
    }
  }

  lemma StreamGrows(p: Primitives, hash: Hash, prk: Bytes, info: Bytes, i: nat, pos: nat, take: nat)
    requires Sound(p) && hash != Unsupported && 1 <= i <= 255
    requires pos == HASH_LENGTH * (i - 1) && take <= HASH_LENGTH
    ensures Stream(p, hash, prk, info, i - 1)[..pos] + T(p, hash, prk, info, i)[..take]
         == Stream(p, hash, prk, info, i)[..pos + take]
  {
  }

  method HkdfDerive(p: Primitives, hash: Hash, salt: Bytes, ikm: Bytes, info: Bytes, length: int)
    returns (r: Result<Bytes>)
    requires Sound(p)
    ensures r.Ok? <==> hash != Unsupported && ValidLength(length)
    ensures r.Ok? ==> r.value == Expand(p, hash, Extract(p, hash, salt, ikm), info, length)
  {
    var prk := HkdfExtract(p, hash, salt, ikm);
    if prk.Err? {
      return Err(prk.error);
    }
    r := HkdfExpand(p, hash, prk.value, info, length);
  }

  // ---------------------------------------------------------------------------
  // Properties
  // ---------------------------------------------------------------------------

  lemma {:induction false} StreamPrefix(p: Primitives, hash: Hash, prk: Bytes, info: Bytes, n: nat, m: nat)
    requires Sound(p) && hash != Unsupported && n <= m <= 255
    ensures Stream(p, hash, prk, info, n) <= Stream(p, hash, prk, info, m)
  {
    if n < m {
      StreamPrefix(p, hash, prk, info, n, m - 1);
    }
  }

  /** A shorter output is a prefix of a longer one. */
  lemma ExpandPrefix(p: Primitives, hash: Hash, prk: Bytes, info: Bytes, short: int, long: int)
    requires Sound(p) && hash != Unsupported && ValidLength(short) && ValidLength(long) && short <= long
    ensures Expand(p, hash, prk, info, short) <= Expand(p, hash, prk, info, long)
  {
    StreamPrefix(p, hash, prk, info, BlockCount(short), BlockCount(long));
  }

  /** Byte k of the output is byte k mod 64 of T(k div 64 + 1), whatever the output length. */
  lemma {:induction false} ExpandAt(p: Primitives, hash: Hash, prk: Bytes, info: Bytes, length: int, k: nat)
    requires Sound(p) && hash != Unsupported && ValidLength(length) && k < length
    ensures k / HASH_LENGTH + 1 <= 255
    ensures Expand(p, hash, prk, info, length)[k] == T(p, hash, prk, info, k / HASH_LENGTH + 1)[k % HASH_LENGTH]
  {
    var i := k / HASH_LENGTH + 1;
    StreamPrefix(p, hash, prk, info, i, BlockCount(length));
    var s := Stream(p, hash, prk, info, i);
    assert k == HASH_LENGTH * (i - 1) + k % HASH_LENGTH;
    assert s[k] == T(p, hash, prk, info, i)[k % HASH_LENGTH];
  }

  /** An absent salt keys HMAC-BLAKE2b like the empty key. */
  lemma AbsentSalt(p: Primitives, ikm: Bytes)
    requires Sound(p)
    ensures Extract(p, Blake2b, [], ikm) == Hmac(p, [], ikm)
  {
    PaddedKey(p, [], HASH_LENGTH, ikm);
    assert [] + Zeros(HASH_LENGTH) == Zeros(HASH_LENGTH);
  }

  /** A salt that is given keys the extraction as it is. */
  lemma GivenSalt(p: Primitives, hash: Hash, salt: Bytes, ikm: Bytes)
    requires Sound(p) && hash != Unsupported && salt != []
    ensures Extract(p, hash, salt, ikm) == Prf(p, hash, salt, ikm)
  {
  }

  lemma FirstTwoBlocks(p: Primitives, hash: Hash, prk: Bytes, info: Bytes)
    requires Sound(p) && hash != Unsupported
    ensures var first := Prf(p, hash, prk, info + [1]);
            T(p, hash, prk, info, 1) == first && T(p, hash, prk, info, 2) == Prf(p, hash, prk, first + info + [2])
  {
    assert [] + info + [1] == info + [1];
  }

  /** Output of one block, in the terms of section 2.3 of RFC 5869. */
  lemma OneBlock(p: Primitives, hash: Hash, prk: Bytes, info: Bytes, length: int)
    requires Sound(p) && hash != Unsupported && 0 < length <= 64
    ensures Expand(p, hash, prk, info, length) == Prf(p, hash, prk, info + [1])[..length]
  {
    FirstTwoBlocks(p, hash, prk, info);
    assert Stream(p, hash, prk, info, 1) == [] + T(p, hash, prk, info, 1);
  }

  lemma TwoBlocks(p: Primitives, hash: Hash, prk: Bytes, info: Bytes)
    requires Sound(p) && hash != Unsupported
    ensures var first := Prf(p, hash, prk, info + [1]);
            Expand(p, hash, prk, info, 128) == first + Prf(p, hash, prk, first + info + [2])
  {
    FirstTwoBlocks(p, hash, prk, info);
    assert Stream(p, hash, prk, info, 1) == [] + T(p, hash, prk, info, 1);
  }

  /** A key longer than a block acts as its hash. */
  lemma LongKey(p: Primitives, key: Bytes, text: Bytes)
    requires Sound(p) && |key| > 128
    ensures Hmac(p, key, text) == Hmac(p, p.blake2b(key), text)
  {
  }

  /** Bit k of an exclusive or. */
  lemma {:induction false} XorBit(a: nat, b: nat, k: nat)
    ensures BitXor(a, b) / Pow2(k) % 2 == 1 <==> a / Pow2(k) % 2 != b / Pow2(k) % 2
    decreases k
  {
    if k > 0 {
      XorBit(a / 2, b / 2, k - 1);
      Halves(a, k - 1);
      Halves(b, k - 1);
      Halves(BitXor(a, b), k - 1);
      assert BitXor(a, b) / 2 == BitXor(a / 2, b / 2);
    }
  }
}
