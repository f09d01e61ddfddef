/**
 The text that LatticeEncryption.decrypt returns (core/security/quantum-resistant.js), and exactly when it is the
 text that was encrypted.
 */
module LatticeText {
  import opened LatticeEncryption
  import opened LatticeMargin
  import opened Numbers
  import opened Strings

  /** Decryption of the encryption, to the end: the character codes of the returned text. */
  function ReturnedText(t: Run, n: nat, q: nat): seq<int>
    requires q > 0 && Shaped(t, n)
  {
    DecodedText(Recovered(t, n, q), q)
  }

  function ZeroVector(n: nat): (v: Vector)
    ensures |v| == n && forall i :: 0 <= i < n ==> v[i] == 0
  {
    seq(n, _ => 0)
  }

  /** Only for q of 2 and 3 does 1 pass the test, which is meant for q / 2. */
  lemma ThresholdOfBits(m: Vector, q: nat)
    requires q > 0 && IsBits(m, |m|)
    ensures Thresholded(m, q) == if q == 2 || q == 3 then m else ZeroVector(|m|)
  {
  }

  lemma {:induction false} PackedZero(bits: Vector)
    requires forall i :: 0 <= i < |bits| ==> bits[i] == 0
    ensures PackedByte(bits) == 0
  {
    if bits != [] {
      PackedZero(bits[..|bits| - 1]);
    }
  }

  lemma {:induction false} PackedFirst(bits: Vector)
    requires IsBits(bits, |bits|) && bits != [] && bits[0] == 1
    ensures PackedByte(bits) > 0
  {
    if |bits| == 1 {
      assert PackedByte(bits[..0]) == 0;
    } else {
      PackedFirst(bits[..|bits| - 1]);
    }
  }

  lemma {:induction false} ZerosLeaveNothing(bits: Vector)
    requires forall i :: 0 <= i < |bits| ==> bits[i] == 0
    ensures Characters(bits) == []
  {
    if bits != [] {
      PackedZero(bits[..GroupLength(bits)]);
      ZerosLeaveNothing(bits[GroupLength(bits)..]);
    }
  }

  /** Whatever the key and the ciphertext: for q other than 2 and 3 the text that decrypt returns is empty. */
  lemma TextVanishes(s: Vector, u: Vector, v: Vector, q: nat)
    requires q > 0 && q != 2 && q != 3 && |s| == |u| == |v|
    ensures DecodedText(Decoded(s, u, v, q), q) == []
  {
    ThresholdOfBits(Decoded(s, u, v, q), q);
    ZerosLeaveNothing(ZeroVector(|s|));
  }

  lemma NothingReturned(t: Run, n: nat, q: nat)
    requires q > 0 && q != 2 && q != 3 && Shaped(t, n)
    ensures ReturnedText(t, n, q) == []
  {
    TextVanishes(t.s, MatrixVector(Transposed(t.A, n), t.r, t.e1, q),
                 CipherV(MatrixVector(t.A, t.s, t.e, q), t.r, t.e2, Encoded(t.bits, q), q), q);
  }

  function Level(bit: int, q: nat): int { if bit == 1 then q / 2 else 0 }

  /** The smallest draw that takes a message entry to `target` modulo q. */
  function Steer(bit: int, target: int, q: nat, eta: nat): int
    requires q > 0
  {
    0 - eta + (target - Level(bit, q) + eta) % q
  }

  lemma Steers(bit: int, target: int, q: nat, eta: nat)
    requires (q == 2 || q == 3) && eta > 0 && (target == 0 || target == 1)
    ensures Drawable(Steer(bit, target, q, eta), eta)
    ensures DecodeBit((Level(bit, q) + Steer(bit, target, q, eta)) % q, q) == target
  {
    var d := target - Level(bit, q) + eta;
    assert Level(bit, q) + Steer(bit, target, q, eta) == target - (d / q) * q;
    CongruentBy(target - (d / q) * q, target, -(d / q), q);
  }

  /** Equal vectors for the key and the randomness cancel; e2 alone is left. */
  function SteeredRun(n: nat, eta: nat, e2: Vector, bits: Vector): (t: Run)
    requires |e2| == |bits| == n
    ensures Shaped(t, n)
  {
    var w := seq(n, _ => 0 - eta);
    Run(ZeroMatrix(n), w, w, w, w, e2, bits)
  }

  lemma SteeredRunPossible(n: nat, q: nat, eta: nat, e2: Vector, bits: Vector)
    requires q > 0 && eta > 0 && IsBits(bits, n) && Drawn(e2, n, eta) && |e2| == n
    ensures Possible(SteeredRun(n, eta, e2, bits), n, q, eta)
  {
    ZeroDrawn(n, q);
    DrawnIff(SteeredRun(n, eta, e2, bits).s, n, eta);
  }

  /** For q of 2 and 3 the randomness can turn any message into any bits. */
  lemma AnyBits(n: nat, q: nat, eta: nat, bits: Vector, target: Vector) returns (t: Run)
    requires (q == 2 || q == 3) && eta > 0 && IsBits(bits, n) && IsBits(target, n)
    ensures Possible(t, n, q, eta) && Shaped(t, n) && t.bits == bits && Recovered(t, n, q) == target
  {
    var e2 := seq(n, i requires 0 <= i < n => Steer(bits[i], target[i], q, eta));
    t := SteeredRun(n, eta, e2, bits);
    forall i | 0 <= i < n
      ensures Drawable(e2[i], eta) && Recovered(t, n, q)[i] == target[i]
    {
      Steers(bits[i], target[i], q, eta);
      RecoveredEntry(t, n, q, i);
    }
    DrawnIff(e2, n, eta);
    SteeredRunPossible(n, q, eta, e2, bits);
  }

  lemma TwoTexts(n: nat, q: nat, eta: nat, bits: Vector) returns (t: Run, t': Run)
    requires n > 0 && (q == 2 || q == 3) && eta > 0 && IsBits(bits, n)
    ensures Possible(t, n, q, eta) && Shaped(t, n) && t.bits == bits && ReturnedText(t, n, q) == []
    ensures Possible(t', n, q, eta) && Shaped(t', n) && t'.bits == bits && ReturnedText(t', n, q) != []
  {
    var ones := seq(n, _ => 1);
    t := AnyBits(n, q, eta, bits, ZeroVector(n));
    t' := AnyBits(n, q, eta, bits, ones);
    ThresholdOfBits(ZeroVector(n), q);
    ThresholdOfBits(ones, q);
    ZerosLeaveNothing(ZeroVector(n));
    PackedFirst(ones[..GroupLength(ones)]);
  }

  lemma SomeRun(n: nat, q: nat, eta: nat, bits: Vector) returns (t: Run)
    requires q > 0 && eta > 0 && IsBits(bits, n)
    ensures Possible(t, n, q, eta) && Shaped(t, n) && t.bits == bits
  {
    var w := seq(n, _ => 0 - eta);
    DrawnIff(w, n, eta);
    t := SteeredRun(n, eta, w, bits);
    SteeredRunPossible(n, q, eta, w, bits);
  }

  ghost predicate AlwaysReturned(n: nat, q: nat, eta: nat, text: seq<int>, message: seq<Byte>)
    requires q > 0
  {
    forall t :: Possible(t, n, q, eta) && t.bits == MessageBits(message, n) ==>
      Shaped(t, n) && ReturnedText(t, n, q) == text
  }

  /**
   The text that was encrypted comes back for every key and all randomness if and only if it is empty and q is
   neither 2 nor 3. `message` is its UTF-8 form, which is empty exactly when the text is.
   */
  lemma TextComesBackIff(n: nat, q: nat, eta: nat, text: seq<int>, message: seq<Byte>)
    requires n > 0 && q > 0 && eta > 0 && (text == [] <==> message == [])
    ensures AlwaysReturned(n, q, eta, text, message) <==> text == [] && q != 2 && q != 3
  {
    if q == 2 || q == 3 {
      var t, t' := TwoTexts(n, q, eta, MessageBits(message, n));
    } else {
      var some := SomeRun(n, q, eta, MessageBits(message, n));
      forall t | Possible(t, n, q, eta) ensures Shaped(t, n) && ReturnedText(t, n, q) == [] {
        PossibleIsShaped(t, n, q, eta);
        NothingReturned(t, n, q);
      }
    }
  }

  // ---------------------------------------------------------------------------
  // The characters of a bit vector
  // ---------------------------------------------------------------------------

  /** The n low bits of a number, the lowest first. */
  function LowBits(c: nat, n: nat): (bits: Vector)
    ensures IsBits(bits, n)
  {
    if n == 0 then [] else [c % 2] + LowBits(c / 2, n - 1)
  }

  lemma LastTerm(low: int, last: int, p: int, bit: int)
    ensures (bit + 2 * low) + last * (2 * p) == bit + 2 * (low + last * p)
  {
  }

  lemma {:induction false} PackedAgain(bits: Vector, bit: int)
    requires IsBits(bits, |bits|) && (bit == 0 || bit == 1)
    ensures PackedByte([bit] + bits) == bit + 2 * PackedByte(bits)
  {
    if bits == [] {
      assert ([bit] + bits)[..0] == [];
      assert PackedByte([bit]) == bit * Pow2(0);
    } else {
      var k := |bits| - 1;
      PackedAgain(bits[..k], bit);
      assert ([bit] + bits)[..k + 1] == [bit] + bits[..k];
      LastTerm(PackedByte(bits[..k]), bits[k], Pow2(k), bit);
    }
  }

  lemma {:induction false} PackedLowBits(c: nat, n: nat)
    requires c < Pow2(n)
    ensures PackedByte(LowBits(c, n)) == c
  {
    if n > 0 {
      PackedLowBits(c / 2, n - 1);
      PackedAgain(LowBits(c / 2, n - 1), c % 2);
    }
  }

  /** Eight bits for every character, the lowest first. */
  function BitsOfText(text: seq<int>): (bits: Vector)
    requires forall i :: 0 <= i < |text| ==> 0 < text[i] < 256
    ensures IsBits(bits, 8 * |text|)
  {
    if text == [] then [] else LowBits(text[0], 8) + BitsOfText(text[1..])
  }

  /** Decoding reads every group of eight bits as a character, in order and lowest bit first. */
  lemma {:induction false} CharactersBack(text: seq<int>)
    requires forall i :: 0 <= i < |text| ==> 0 < text[i] < 256
    ensures Characters(BitsOfText(text)) == text
  {
    if text != [] {
      var bits := BitsOfText(text);
      CharactersBack(text[1..]);
      assert Pow2(8) == 256;
      PackedLowBits(text[0], 8);
      assert bits[..8] == LowBits(text[0], 8) && bits[8..] == BitsOfText(text[1..]);
      assert text == [text[0]] + text[1..];
    }
  }
}
