/**
 The mnemonics of core/crypto/seed.js as numbers, as BIP-39 defines them: the words are the base-2048 digits of the
 entropy followed by the first bits of its hash.
 */
module MnemonicNumbers {
  import opened BitStrings
  import opened Mnemonic
  import opened Numbers
  import opened Strings

  /** The number with these digits, the highest first. */
  function BigEndian(digits: seq<nat>, base: nat): nat {
    if digits == [] then 0
    else BigEndian(digits[..|digits| - 1], base) * base + digits[|digits| - 1]
  }

  // ---------------------------------------------------------------------------
  // Bit strings as numbers
  // ---------------------------------------------------------------------------

  lemma {:induction false} FromBitsConcat(a: Bits, b: Bits)
    ensures FromBits(a + b) == FromBits(a) * Pow2(|b|) + FromBits(b)
  {
    if b == [] {
      assert a + b == a;
    } else {
      var k := |b| - 1;
      FromBitsConcat(a, b[..k]);
      var bit := if b[k] then 1 else 0;
      assert FromBits(a + b) == 2 * FromBits(a + b[..k]) + bit by {
        assert (a + b)[..|a + b| - 1] == a + b[..k];
      }
      OneMoreBit(FromBits(a), Pow2(k), FromBits(b[..k]), bit);
    }
  }

  lemma OneMoreBit(a: nat, p: nat, b: nat, bit: nat)
    ensures 2 * (a * p + b) + bit == a * (2 * p) + (2 * b + bit)
  {
  }

  lemma {:induction false} FlattenIsBigEndian(ns: seq<nat>, width: nat)
    requires forall i :: 0 <= i < |ns| ==> ns[i] < Pow2(width)
    ensures FromBits(Flatten(ns, width)) == BigEndian(ns, Pow2(width))
  {
    if ns != [] {
      var k := |ns| - 1;
      FlattenIsBigEndian(ns[..k], width);
      FlattenAppend(ns[..k], ns[k], width);
      assert ns == ns[..k] + [ns[k]];
      FromBitsConcat(Flatten(ns[..k], width), ToBits(ns[k], width));
      FromToBits(ns[k], width);
    }
  }

  /** The first bits of a numeral. */
  lemma {:induction false} LeadingBits(x: nat, width: nat, n: nat)
    requires n <= width && x < Pow2(width)
    ensures FromBits(ToBits(x, width)[..n]) == x / Pow2(width - n)
    decreases width
  {
    if n == width {
      assert ToBits(x, width)[..n] == ToBits(x, width);
      FromToBits(x, width);
    } else {
      LeadingBits(x / 2, width - 1, n);
      assert ToBits(x, width)[..n] == ToBits(x / 2, width - 1)[..n];
      Halves(x, width - 1 - n);
    }
  }

  /** The checksum of n bits is the number that hash[0] has in front of its last 8 - n bits. */
  lemma ChecksumValue(hash0: seq<Byte> -> Byte, e: seq<Byte>, n: nat)
    requires n <= 8
    ensures |Checksum(hash0, e, n)| == n && FromBits(Checksum(hash0, e, n)) == hash0(e) / Pow2(8 - n)
  {
    Powers();
    LeadingBits(hash0(e), 8, n);
  }

  lemma {:induction false} SameNumeral(a: Bits, b: Bits)
    requires |a| == |b|
    ensures a == b <==> FromBits(a) == FromBits(b)
  {
    ToFromBits(a);
    ToFromBits(b);
  }

  // ---------------------------------------------------------------------------
  // Mnemonics as numbers
  // ---------------------------------------------------------------------------

  lemma EntropyValue(e: seq<Byte>)
    ensures FromBits(Flatten(e, 8)) == BigEndian(e, 256)
  {
    Powers();
    FlattenIsBigEndian(e, 8);
  }

  /** The word indices are the base-2048 digits of the entropy followed by the first |e| / 4 bits of hash[0]. */
  lemma IndicesValue(hash0: seq<Byte> -> Byte, e: seq<Byte>)
    requires Packable(|e|)
    ensures |e| / 4 <= 8
    ensures BigEndian(Indices(hash0, e), 2048) == BigEndian(e, 256) * Pow2(|e| / 4) + hash0(e) / Pow2(8 - |e| / 4)
  {
    var n, bits := |e| / 4, EntropyBits(hash0, e);
    ChecksumValue(hash0, e, n);
    EntropyValue(e);
    FromBitsConcat(Flatten(e, 8), Checksum(hash0, e, n));
    Powers();
    FlattenOfChunks(bits, 11, n * 3);
    FlattenIsBigEndian(Indices(hash0, e), 11);
  }

  lemma Digit(high: nat, low: nat, base: nat, p: nat)
    requires p > 0 && base % p == 0
    ensures (high * base + low) % p == low % p
  {
    MulCongruent(high, high, base, 0, p);
    AddCongruent(high * base, 0, low, low, p);
  }

  lemma PowerDivides(n: nat)
    requires n <= 11
    ensures 2048 % Pow2(n) == 0
  {
    Powers();
    Pow2Add(11 - n, n);
    DivModUnique(Pow2(11 - n), Pow2(n), 0);
  }

  lemma LastDigit(ns: seq<nat>, n: nat)
    requires ns != [] && n <= 11
    ensures BigEndian(ns, 2048) % Pow2(n) == ns[|ns| - 1] % Pow2(n)
  {
    PowerDivides(n);
    Digit(BigEndian(ns[..|ns| - 1], 2048), ns[|ns| - 1], 2048, Pow2(n));
  }

  lemma Remainders(a: nat, p: nat, c: nat)
    requires c < p
    ensures (a * p + c) % p == c && (a * p + c) / p == a
  {
    DivModUnique(a, p, c);
  }

  lemma QuotientBound(h: nat, p: nat, q: nat)
    requires p > 0 && h < p * q
    ensures h / p < q
  {
    MultipleBound(h / p - q, p);
    assert (h / p - q) * p == h / p * p - p * q;
  }

  lemma ChecksumSmall(h: nat, n: nat)
    requires h < 256 && n <= 8
    ensures h / Pow2(8 - n) < Pow2(n)
  {
    Pow2Add(8 - n, n);
    Powers();
    QuotientBound(h, Pow2(8 - n), Pow2(n));
  }

  /** So the last word carries the checksum: with n = |e| / 4, the low n bits of its index are the top n of hash[0]. */
  lemma LastWord(hash0: seq<Byte> -> Byte, e: seq<Byte>)
    requires EntropySize(|e|)
    ensures var n := |e| / 4;
            n <= 8 && Indices(hash0, e)[3 * n - 1] % Pow2(n) == hash0(e) / Pow2(8 - n)
  {
    var n := |e| / 4;
    IndicesValue(hash0, e);
    ChecksumSmall(hash0(e), n);
    Remainders(BigEndian(e, 256), Pow2(n), hash0(e) / Pow2(8 - n));
    LastDigit(Indices(hash0, e), n);
  }

  /** A bit string cut after its first 4n bytes, with n bits left over. */
  lemma CutValue(bits: Bits, n: nat, e: seq<Byte>)
    requires |bits| == 33 * n && e == CutBytes(bits, 4 * n)
    ensures BigEndian(e, 256) == FromBits(bits) / Pow2(n) && FromBits(bits[32 * n..]) == FromBits(bits) % Pow2(n)
  {
    var tail := bits[32 * n..];
    FlattenOfCut(bits, 4 * n);
    EntropyValue(e);
    FromBitsConcat(Flatten(e, 8), tail);
    ToFromBits(tail);
    Remainders(BigEndian(e, 256), Pow2(n), FromBits(tail));
  }

  /** Cutting the words apart: the entropy is the number in front of the last n bits. */
  lemma DecodedValue(list: seq<string>, words: seq<string>, n: nat, bits: Bits)
    requires |list| == 2048 && AllListed(list, words) && |words| == 3 * n && |words| % 3 == 0
    requires bits == WordBits(list, words) && |bits| == 33 * n
    ensures BigEndian(DecodedEntropy(list, words), 256) == BigEndian(IndexAll(list, words), 2048) / Pow2(n)
    ensures FromBits(bits[32 * n..]) == BigEndian(IndexAll(list, words), 2048) % Pow2(n)
  {
    Groups(n, 4 * n, |words|);
    Powers();
    FlattenIsBigEndian(IndexAll(list, words), 11);
    CutValue(bits, n, DecodedEntropy(list, words));
  }

  /**
   Listed words in threes, 24 at most, are accepted if and only if the low n bits of the last index are the top n
   bits of the hash of the number in front of them.
   */
  lemma AcceptedIff(list: seq<string>, words: seq<string>, hash0: seq<Byte> -> Byte, n: nat)
    requires |list| == 2048 && AllListed(list, words) && |words| == 3 * n && 0 < n <= 8
    ensures BigEndian(DecodedEntropy(list, words), 256) == BigEndian(IndexAll(list, words), 2048) / Pow2(n)
    ensures Accepted(list, words, hash0) <==>
            IndexAll(list, words)[3 * n - 1] % Pow2(n) == hash0(DecodedEntropy(list, words)) / Pow2(8 - n)
  {
    var e := DecodedEntropy(list, words);
    DecodedValue(list, words, n, WordBits(list, words));
    ChecksumValue(hash0, e, n);
    SameNumeral(WordBits(list, words)[32 * n..], Checksum(hash0, e, n));
    LastDigit(IndexAll(list, words), n);
  }
}
