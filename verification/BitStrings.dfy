/** Fixed-width big-endian binary numerals, and the repacking of a bit string from one width to another. */
module BitStrings {
  import opened Numbers

  /** A string of binary digits; true stands for '1'. */
  type Bits = seq<bool>

  /** `n.toString(2).padStart(width, '0')` for n below 2^width. */
  function ToBits(n: nat, width: nat): (b: Bits)
    ensures |b| == width
  {
    if width == 0 then [] else ToBits(n / 2, width - 1) + [n % 2 == 1]
  }

  /** `parseInt(b, 2)`. */
  function FromBits(b: Bits): nat {
    if b == [] then 0 else 2 * FromBits(b[..|b| - 1]) + if b[|b| - 1] then 1 else 0
  }

  lemma {:induction false} FromToBits(n: nat, width: nat)
    requires n < Pow2(width)
    ensures FromBits(ToBits(n, width)) == n
  {
    if width != 0 {
      FromToBits(n / 2, width - 1);
      assert ToBits(n, width)[..width - 1] == ToBits(n / 2, width - 1);
    }
  }

  lemma {:induction false} ToFromBits(b: Bits)
    ensures FromBits(b) < Pow2(|b|) && ToBits(FromBits(b), |b|) == b
  {
    if b != [] {
      ToFromBits(b[..|b| - 1]);
      assert b == b[..|b| - 1] + [b[|b| - 1]];
    }
  }

  /** The length of n numerals of one width. */
  function Span(width: nat, n: nat): nat {
    if n == 0 then 0 else Span(width, n - 1) + width
  }

  lemma {:induction false} SpanIsProduct(width: nat, n: nat)
    ensures Span(width, n) == width * n
  {
    if n != 0 {
      SpanIsProduct(width, n - 1);
      assert width * (n - 1) + width == width * n;
    }
  }

  /** The concatenation of parts of one width. */
  function Concat(parts: seq<Bits>, width: nat): (b: Bits)
    requires forall i :: 0 <= i < |parts| ==> |parts[i]| == width
    ensures |b| == Span(width, |parts|)
  {
    if parts == [] then [] else Concat(parts[..|parts| - 1], width) + parts[|parts| - 1]
  }

  function Split(b: Bits, width: nat, n: nat): (parts: seq<Bits>)
    requires |b| == Span(width, n)
    ensures |parts| == n && forall i :: 0 <= i < n ==> |parts[i]| == width
    decreases n
  {
    if n == 0 then [] else Split(b[..|b| - width], width, n - 1) + [b[|b| - width..]]
  }

  lemma {:induction false} SplitOfConcat(parts: seq<Bits>, width: nat)
    requires forall i :: 0 <= i < |parts| ==> |parts[i]| == width
    ensures Split(Concat(parts, width), width, |parts|) == parts
  {
    if parts != [] {
      var last := |parts| - 1;
      SplitOfConcat(parts[..last], width);
      var b := Concat(parts, width);
      assert b[..|b| - width] == Concat(parts[..last], width) && b[|b| - width..] == parts[last];
      assert parts == parts[..last] + [parts[last]];
    }
  }

  lemma {:induction false} ConcatOfSplit(b: Bits, width: nat, n: nat)
    requires |b| == Span(width, n)
    ensures Concat(Split(b, width, n), width) == b
    decreases n
  {
    if n != 0 {
      var front, back := b[..|b| - width], b[|b| - width..];
      ConcatOfSplit(front, width, n - 1);
      var parts := Split(b, width, n);
      assert parts[..n - 1] == Split(front, width, n - 1);
      assert b == front + back;
    }
  }

  lemma {:induction false} SpanMonotone(width: nat, i: nat, n: nat)
    requires i <= n
    ensures Span(width, i) <= Span(width, n)
  {
    if i < n {
      SpanMonotone(width, i, n - 1);
    }
  }

  lemma {:induction false} SplitAt(b: Bits, width: nat, n: nat, i: nat)
    requires |b| == Span(width, n) && i < n
    ensures Span(width, i + 1) <= |b|
    ensures Split(b, width, n)[i] == b[Span(width, i)..Span(width, i + 1)]
    decreases n
  {
    SpanMonotone(width, i + 1, n);
    if i == n - 1 {
      assert b[Span(width, i)..Span(width, i + 1)] == b[|b| - width..];
    } else {
      var front := b[..|b| - width];
      SplitAt(front, width, n - 1, i);
      assert front[Span(width, i)..Span(width, i + 1)] == b[Span(width, i)..Span(width, i + 1)];
    }
  }

  function Numerals(ns: seq<nat>, width: nat): (parts: seq<Bits>)
    ensures |parts| == |ns| && forall i :: 0 <= i < |ns| ==> |parts[i]| == width
  {
    seq(|ns|, i requires 0 <= i < |ns| => ToBits(ns[i], width))
  }

  function Values(parts: seq<Bits>): (ns: seq<nat>)
    ensures |ns| == |parts|
  {
    seq(|parts|, i requires 0 <= i < |parts| => FromBits(parts[i]))
  }

  function Flatten(ns: seq<nat>, width: nat): (b: Bits)
    ensures |b| == Span(width, |ns|)
  {
    Concat(Numerals(ns, width), width)
  }

  /** The n numerals that a bit string packs. */
  function Chunks(b: Bits, width: nat, n: nat): (ns: seq<nat>)
    requires |b| == Span(width, n)
    ensures |ns| == n
  {
    Values(Split(b, width, n))
  }

  lemma ValuesOfNumerals(ns: seq<nat>, width: nat)
    requires forall i :: 0 <= i < |ns| ==> ns[i] < Pow2(width)
    ensures Values(Numerals(ns, width)) == ns
  {
    forall i | 0 <= i < |ns| ensures FromBits(ToBits(ns[i], width)) == ns[i] {
      FromToBits(ns[i], width);
    }
  }

  lemma NumeralsOfValues(parts: seq<Bits>, width: nat)
    requires forall i :: 0 <= i < |parts| ==> |parts[i]| == width
    ensures Numerals(Values(parts), width) == parts
    ensures forall i :: 0 <= i < |parts| ==> Values(parts)[i] < Pow2(width)
  {
    forall i | 0 <= i < |parts|
      ensures ToBits(FromBits(parts[i]), width) == parts[i] && FromBits(parts[i]) < Pow2(width)
    {
      ToFromBits(parts[i]);
    }
  }

  lemma ChunksOfFlatten(ns: seq<nat>, width: nat)
    requires forall i :: 0 <= i < |ns| ==> ns[i] < Pow2(width)
    ensures Chunks(Flatten(ns, width), width, |ns|) == ns
  {
    SplitOfConcat(Numerals(ns, width), width);
    ValuesOfNumerals(ns, width);
  }

  lemma FlattenOfChunks(b: Bits, width: nat, n: nat)
    requires |b| == Span(width, n)
    ensures Flatten(Chunks(b, width, n), width) == b
    ensures forall i :: 0 <= i < n ==> Chunks(b, width, n)[i] < Pow2(width)
  {
    NumeralsOfValues(Split(b, width, n), width);
    ConcatOfSplit(b, width, n);
  }

  /** Appending a number appends its numeral. */
  lemma FlattenAppend(ns: seq<nat>, n: nat, width: nat)
    ensures Flatten(ns + [n], width) == Flatten(ns, width) + ToBits(n, width)
  {
    var parts := Numerals(ns + [n], width);
    assert parts[..|ns|] == Numerals(ns, width);
  }

  /** Chunk i is the numeral in its own slice. */
  lemma ChunkAt(b: Bits, width: nat, n: nat, i: nat)
    requires |b| == Span(width, n) && i < n
    ensures Span(width, i + 1) <= |b|
    ensures Chunks(b, width, n)[i] == FromBits(b[Span(width, i)..Span(width, i + 1)])
  {
    SplitAt(b, width, n, i);
  }
}
