/**
 core/crypto/seed.js: BIP-39 mnemonics. Entropy and words are the same bit string cut at 8 and
 at 11 bits, with a checksum of one bit for every 32.
 */
module Mnemonic {
  import opened Numbers
  import opened Results
  import opened Strings
  import opened BitStrings
  import opened WordText

  /** The word list as loaded: 2048 distinct words. */
  ghost predicate IsWordlist(list: seq<string>) {
    && |list| == 2048
    && (forall i :: 0 <= i < |list| ==> IsWord(list[i]))
    && (forall i, j :: 0 <= i < j < |list| ==> list[i] != list[j])
  }

  predicate EntropySize(n: nat) {
    8 * n == 128 || 8 * n == 160 || 8 * n == 192 || 8 * n == 224 || 8 * n == 256
  }

  /** The sizes whose checksum fits in one hash byte. */
  predicate Packable(n: nat) {
    n % 4 == 0 && n <= 32
  }

  function Prefix(b: Bits, n: nat): Bits {
    if n <= |b| then b[..n] else b
  }

  /** `hash[0].toString(2).padStart(8, '0').slice(0, n)`, where hash0 gives the first SHA-256 byte. */
  function Checksum(hash0: seq<Byte> -> Byte, e: seq<Byte>, n: nat): Bits {
    Prefix(ToBits(hash0(e), 8), n)
  }

  lemma Widths(n: nat)
    ensures Span(8, n) == 8 * n && Span(11, n) == 11 * n
  {
    SpanIsProduct(8, n);
    SpanIsProduct(11, n);
  }

  lemma Powers()
    ensures Pow2(8) == 256 && Pow2(11) == 2048
  {
  }

  /** n groups of 32 bits: 4n bytes and 3n words. */
  lemma Groups(n: nat, bytes: nat, words: nat)
    requires bytes == 4 * n && words == 3 * n
    ensures bytes / 4 == n && bytes % 4 == 0 && words / 3 == n && words % 3 == 0
    ensures words / 3 * 4 == bytes && bytes / 4 * 3 == words && 32 * (words / 3) == 8 * bytes
    ensures n <= 8 <==> Packable(bytes)
    ensures 12 <= words <= 24 <==> EntropySize(bytes)
  {
  }

  /** The bit counts that the two directions compute, for n groups. */
  lemma GroupBits(n: nat, bytes: nat, words: nat)
    requires bytes == 4 * n && words == 3 * n
    ensures bytes * 8 / 32 == n && words * 11 * 32 / 33 == 8 * bytes == 32 * n
    ensures words * 11 - 8 * bytes == n && 8 * bytes / 8 == bytes
  {
    assert words * 11 * 32 == (32 * n) * 33;
  }

  // ---------------------------------------------------------------------------
  // Entropy to words
  // ---------------------------------------------------------------------------

  function EntropyBits(hash0: seq<Byte> -> Byte, e: seq<Byte>): (b: Bits)
    requires Packable(|e|)
    ensures |b| == Span(11, |e| / 4 * 3)
  {
    Widths(|e|);
    Widths(|e| / 4 * 3);
    Flatten(e, 8) + Checksum(hash0, e, |e| / 4)
  }

  function Indices(hash0: seq<Byte> -> Byte, e: seq<Byte>): (ns: seq<nat>)
    requires Packable(|e|)
    ensures |ns| == |e| / 4 * 3 && forall i :: 0 <= i < |ns| ==> ns[i] < 2048
  {
    FlattenOfChunks(EntropyBits(hash0, e), 11, |e| / 4 * 3);
    Powers();
    Chunks(EntropyBits(hash0, e), 11, |e| / 4 * 3)
  }

  function Lookup(list: seq<string>, ns: seq<nat>): (words: seq<string>)
    requires forall i :: 0 <= i < |ns| ==> ns[i] < |list|
    ensures |words| == |ns|
  {
    seq(|ns|, i requires 0 <= i < |ns| => list[ns[i]])
  }

  method EntropyToMnemonic(e: seq<Byte>, list: seq<string>, hash0: seq<Byte> -> Byte) returns (r: Result<string>)
    requires |list| == 2048
    ensures r.Ok? <==> EntropySize(|e|)
    ensures r.Ok? ==> r.value == JoinWords(Lookup(list, Indices(hash0, e)))
  {
    var bits := |e| * 8;
    if bits != 128 && bits != 160 && bits != 192 && bits != 224 && bits != 256 {
      return Err("seed: entropy must be 128-256 bits");
    }
    GroupBits(|e| / 4, |e|, |e| / 4 * 3);
    var checksumBits := bits / 32;
    var bitstr := BytesToBits(e);
    bitstr := bitstr + Prefix(ToBits(hash0(e), 8), checksumBits);
    var words := BitsToWords(bitstr, |e| / 4 * 3, Indices(hash0, e), list);
    return Ok(JoinWords(words));
  }

  method BytesToBits(e: seq<Byte>) returns (bitstr: Bits)
    ensures bitstr == Flatten(e, 8)
  {
    bitstr := [];
    var i := 0;
    while i < |e|
      invariant 0 <= i <= |e| && bitstr == Flatten(e[..i], 8)
    {
      FlattenAppend(e[..i], e[i], 8);
      assert e[..i + 1] == e[..i] + [e[i]];
      bitstr := bitstr + ToBits(e[i], 8);
      i := i + 1;
    }
    assert e[..i] == e;
  }

  method BitsToWords(bitstr: Bits, ghost n: nat, ghost ns: seq<nat>, list: seq<string>) returns (words: seq<string>)
    requires |bitstr| == Span(11, n) && ns == Chunks(bitstr, 11, n)
    requires |list| == 2048 && forall i :: 0 <= i < |ns| ==> ns[i] < |list|
    ensures words == Lookup(list, ns)
  {
    Widths(n);
    words := [];
    var i := 0;
    while i < |bitstr|
      invariant i == 11 * |words| && |words| <= n
      invariant forall k :: 0 <= k < |words| ==> words[k] == list[ns[k]]
    {
      Widths(|words|);
      Widths(|words| + 1);
      ChunkAt(bitstr, 11, n, |words|);
      words := words + [list[FromBits(bitstr[i..i + 11])]];
      i := i + 11;
    }
  }

  // ---------------------------------------------------------------------------
  // Words to entropy
  // ---------------------------------------------------------------------------

  function IndexOf(list: seq<string>, w: string): (i: int)
    ensures -1 <= i < |list|
    ensures i >= 0 ==> list[i] == w
    ensures i < 0 ==> w !in list
  {
    IndexFrom(list, w, 0)
  }

  function IndexFrom(list: seq<string>, w: string, k: nat): (i: int)
    requires k <= |list| && w !in list[..k]
    ensures -1 <= i < |list|
    ensures i >= 0 ==> list[i] == w
    ensures i < 0 ==> w !in list
    decreases |list| - k
  {
    if k == |list| then
      assert list[..k] == list;
      -1
    else if list[k] == w then k
    else
      assert list[..k + 1] == list[..k] + [list[k]];
      IndexFrom(list, w, k + 1)
  }

  predicate AllListed(list: seq<string>, words: seq<string>) {
    forall i :: 0 <= i < |words| ==> words[i] in list
  }

  function IndexAll(list: seq<string>, words: seq<string>): (ns: seq<nat>)
    requires AllListed(list, words)
    ensures |ns| == |words| && forall i :: 0 <= i < |ns| ==> ns[i] < |list|
  {
    seq(|words|, i requires 0 <= i < |words| => IndexOf(list, words[i]))
  }

  /** The bits of the words, and the entropy cut from all but the last third of a word count. */
  function WordBits(list: seq<string>, words: seq<string>): (b: Bits)
    requires AllListed(list, words)
    ensures |b| == 11 * |words|
  {
    Widths(|words|);
    Flatten(IndexAll(list, words), 11)
  }

  function DecodedEntropy(list: seq<string>, words: seq<string>): (e: seq<Byte>)
    requires AllListed(list, words) && |words| % 3 == 0
    ensures |e| == |words| / 3 * 4
    ensures |words| <= 24 ==> Packable(|e|)
    ensures 12 <= |words| <= 24 ==> EntropySize(|e|)
  {
    Groups(|words| / 3, |words| / 3 * 4, |words|);
    CutBytes(WordBits(list, words), |words| / 3 * 4)
  }

  /** The first n bytes of a bit string. */
  function CutBytes(b: Bits, n: nat): (e: seq<Byte>)
    requires 8 * n <= |b|
    ensures |e| == n
  {
    Widths(n);
    FlattenOfChunks(b[..8 * n], 8, n);
    Powers();
    Chunks(b[..8 * n], 8, n)
  }

  lemma CutOfFlatten(e: seq<Byte>, rest: Bits)
    ensures |Flatten(e, 8)| == 8 * |e|
    ensures CutBytes(Flatten(e, 8) + rest, |e|) == e
  {
    Widths(|e|);
    Powers();
    assert (Flatten(e, 8) + rest)[..8 * |e|] == Flatten(e, 8);
    ChunksOfFlatten(e, 8);
  }

  /** The checksum bits at the end of the words are the first bits of hash[0]. */
  predicate ChecksumMatches(list: seq<string>, words: seq<string>, hash0: seq<Byte> -> Byte)
    requires AllListed(list, words) && |words| % 3 == 0
  {
    WordBits(list, words)[32 * (|words| / 3)..] == Checksum(hash0, DecodedEntropy(list, words), |words| / 3)
  }

  predicate Accepted(list: seq<string>, words: seq<string>, hash0: seq<Byte> -> Byte) {
    |words| % 3 == 0 && AllListed(list, words) && ChecksumMatches(list, words, hash0)
  }

  method MnemonicToEntropy(mnemonic: string, list: seq<string>, hash0: seq<Byte> -> Byte)
    returns (r: Result<seq<Byte>>)
    requires |list| == 2048
    ensures var words := SplitWords(Trim(mnemonic));
            && (r.Ok? <==> Accepted(list, words, hash0))
            && (r.Ok? ==> r.value == DecodedEntropy(list, words))
  {
    var words := SplitWords(Trim(mnemonic));
    if |words| % 3 != 0 {
      return Err("seed: invalid mnemonic length");
    }
    var bits := |words| * 11;
    var divider := bits * 32 / 33;
    var checksumBits := bits - divider;
    ghost var n, bytes := |words| / 3, |words| / 3 * 4;
    assert divider == 8 * bytes == 32 * n && checksumBits == n && divider / 8 == bytes by {
      GroupBits(n, bytes, |words|);
    }
    var listed, bitstr := WordsToBits(words, list);
    if !listed {
      return Err("seed: invalid mnemonic word");
    }
    assert Span(8, bytes) == 8 * bytes by {
      Widths(bytes);
    }
    var entropy := BitsToBytes(bitstr[..divider], divider / 8);
    assert entropy == DecodedEntropy(list, words);
    var expected := Prefix(ToBits(hash0(entropy), 8), checksumBits);
    if expected != bitstr[divider..] {
      return Err("seed: checksum mismatch");
    }
    return Ok(entropy);
  }

  method WordsToBits(words: seq<string>, list: seq<string>) returns (listed: bool, bitstr: Bits)
    ensures listed <==> AllListed(list, words)
    ensures listed ==> bitstr == WordBits(list, words)
  {
    bitstr := [];
    var i := 0;
    while i < |words|
      invariant 0 <= i <= |words| && AllListed(list, words[..i])
      invariant bitstr == Flatten(IndexAll(list, words[..i]), 11)
    {
      var idx := IndexOf(list, words[i]);
      if idx < 0 {
        return false, bitstr;
      }
      IndexAllAppend(list, words[..i], words[i]);
      FlattenAppend(IndexAll(list, words[..i]), idx, 11);
      assert words[..i + 1] == words[..i] + [words[i]];
      bitstr := bitstr + ToBits(idx, 11);
      i := i + 1;
    }
    assert words[..i] == words;
    listed := true;
  }

  method BitsToBytes(bits: Bits, n: nat) returns (bytes: seq<Byte>)
    requires |bits| == Span(8, n)
    ensures bytes == Chunks(bits, 8, n)
  {
    Widths(n);
    var out := new Byte[n](_ => 0);
    var i := 0;
    while i < n
      invariant 0 <= i <= n
      invariant forall k :: 0 <= k < i ==> out[k] == Chunks(bits, 8, n)[k]
    {
      ByteAt(bits, n, i);
      out[i] := FromBits(bits[i * 8..i * 8 + 8]);
      i := i + 1;
    }
    FlattenOfChunks(bits, 8, n);
    bytes := out[..];
  }

  lemma ByteAt(bits: Bits, n: nat, i: nat)
    requires |bits| == Span(8, n) && i < n
    ensures i * 8 + 8 <= |bits| && |Chunks(bits, 8, n)| == n
    ensures FromBits(bits[i * 8..i * 8 + 8]) == Chunks(bits, 8, n)[i] < 256
  {
    Widths(n);
    Widths(i);
    Widths(i + 1);
    FlattenOfChunks(bits, 8, n);
    Powers();
    ChunkAt(bits, 8, n, i);
  }

  lemma IndexAllAppend(list: seq<string>, words: seq<string>, w: string)
    requires AllListed(list, words) && w in list
    ensures AllListed(list, words + [w])
    ensures IndexAll(list, words + [w]) == IndexAll(list, words) + [IndexOf(list, w)]
  {
  }

  // ---------------------------------------------------------------------------
  // Round trips
  // ---------------------------------------------------------------------------

  lemma IndexOfEntry(list: seq<string>, n: nat)
    requires IsWordlist(list) && n < |list|
    ensures IndexOf(list, list[n]) == n
  {
  }

  lemma IndexAllOfLookup(list: seq<string>, ns: seq<nat>)
    requires IsWordlist(list) && forall i :: 0 <= i < |ns| ==> ns[i] < |list|
    ensures AllListed(list, Lookup(list, ns)) && IndexAll(list, Lookup(list, ns)) == ns
  {
    forall i | 0 <= i < |ns| ensures IndexOf(list, Lookup(list, ns)[i]) == ns[i] {
      IndexOfEntry(list, ns[i]);
    }
  }

  lemma LookupOfIndexAll(list: seq<string>, words: seq<string>)
    requires AllListed(list, words)
    ensures Lookup(list, IndexAll(list, words)) == words
  {
  }

  lemma EntropyWordBits(e: seq<Byte>, list: seq<string>, hash0: seq<Byte> -> Byte)
    requires IsWordlist(list) && Packable(|e|)
    ensures var words := Lookup(list, Indices(hash0, e));
            AllListed(list, words) && WordBits(list, words) == EntropyBits(hash0, e)
  {
    IndexAllOfLookup(list, Indices(hash0, e));
    FlattenOfChunks(EntropyBits(hash0, e), 11, |e| / 4 * 3);
  }

  lemma EntropyPart(e: seq<Byte>, hash0: seq<Byte> -> Byte)
    requires Packable(|e|)
    ensures |EntropyBits(hash0, e)| == 33 * (|e| / 4)
    ensures CutBytes(EntropyBits(hash0, e), |e|) == e
    ensures EntropyBits(hash0, e)[8 * |e|..] == Checksum(hash0, e, |e| / 4)
  {
    CutOfFlatten(e, Checksum(hash0, e, |e| / 4));
  }

  /** Words made from entropy are accepted and decode to that entropy. */
  lemma DecodeOfEncode(e: seq<Byte>, list: seq<string>, hash0: seq<Byte> -> Byte)
    requires IsWordlist(list) && Packable(|e|)
    ensures var words := Lookup(list, Indices(hash0, e));
            Accepted(list, words, hash0) && DecodedEntropy(list, words) == e
  {
    var words := Lookup(list, Indices(hash0, e));
    EntropyWordBits(e, list, hash0);
    EntropyPart(e, hash0);
    Groups(|e| / 4, |e|, |words|);
  }

  /** Round trip from entropy, through the text. */
  lemma EntropyRoundTrip(e: seq<Byte>, list: seq<string>, hash0: seq<Byte> -> Byte)
    requires IsWordlist(list) && EntropySize(|e|)
    ensures var words := SplitWords(Trim(JoinWords(Lookup(list, Indices(hash0, e)))));
            Accepted(list, words, hash0) && DecodedEntropy(list, words) == e
  {
    ReadBack(Lookup(list, Indices(hash0, e)));
    DecodeOfEncode(e, list, hash0);
  }

  /** Round trip from words: an accepted mnemonic of 12 to 24 words comes back word for word. */
  lemma WordsRoundTrip(words: seq<string>, list: seq<string>, hash0: seq<Byte> -> Byte)
    requires |list| == 2048 && Accepted(list, words, hash0) && 12 <= |words| <= 24
    ensures EntropySize(|DecodedEntropy(list, words)|)
    ensures Lookup(list, Indices(hash0, DecodedEntropy(list, words))) == words
  {
    var e := DecodedEntropy(list, words);
    Groups(|words| / 3, |e|, |words|);
    FlattenOfCut(WordBits(list, words), |words| / 3 * 4);
    assert EntropyBits(hash0, e) == WordBits(list, words);
    Powers();
    ChunksOfFlatten(IndexAll(list, words), 11);
    LookupOfIndexAll(list, words);
  }

  lemma FlattenOfCut(b: Bits, n: nat)
    requires 8 * n <= |b|
    ensures Flatten(CutBytes(b, n), 8) + b[8 * n..] == b
  {
    assert Flatten(CutBytes(b, n), 8) == b[..8 * n] by {
      Widths(n);
      FlattenOfChunks(b[..8 * n], 8, n);
    }
    JoinParts(b, 8 * n);
  }

  lemma JoinParts(b: Bits, k: nat)
    requires k <= |b|
    ensures b[..k] + b[k..] == b
  {
  }

  /** Whatever the words, more than 24 of them are rejected: the checksum would need more than
      the 8 bits that hash[0] has. */
  lemma TooManyWordsRejected(words: seq<string>, list: seq<string>, hash0: seq<Byte> -> Byte)
    requires |words| > 24
    ensures !Accepted(list, words, hash0)
  {
    if |words| % 3 == 0 && AllListed(list, words) {
      assert |WordBits(list, words)[32 * (|words| / 3)..]| == |words| / 3;
    }
  }

  /** The encoder makes these words from e. */
  ghost predicate Makes(e: seq<Byte>, words: seq<string>, list: seq<string>, hash0: seq<Byte> -> Byte)
    requires |list| == 2048
  {
    EntropySize(|e|) && Lookup(list, Indices(hash0, e)) == words
  }

  lemma MadeLength(e: seq<Byte>, words: seq<string>, list: seq<string>, hash0: seq<Byte> -> Byte)
    requires |list| == 2048 && Makes(e, words, list, hash0)
    ensures |words| >= 12
  {
  }

  /** The accepted mnemonics that the encoder makes are exactly those of 12 words or more. */
  lemma EncoderMakesIff(words: seq<string>, list: seq<string>, hash0: seq<Byte> -> Byte)
    requires |list| == 2048 && Accepted(list, words, hash0)
    ensures (exists e :: Makes(e, words, list, hash0)) <==> |words| >= 12
  {
    if |words| > 24 {
      TooManyWordsRejected(words, list, hash0);
    } else if |words| >= 12 {
      WordsRoundTrip(words, list, hash0);
      assert Makes(DecodedEntropy(list, words), words, list, hash0);
    } else if e :| Makes(e, words, list, hash0) {
      MadeLength(e, words, list, hash0);
    }
  }

  /** The decoder takes 3, 6 and 9 words too, which the encoder never makes: every entropy of 4 to 32
      bytes in whole 32-bit groups has an accepted mnemonic of 3 words a group. */
  lemma EveryCountAccepted(e: seq<Byte>, list: seq<string>, hash0: seq<Byte> -> Byte) returns (words: seq<string>)
    requires IsWordlist(list) && Packable(|e|) && e != []
    ensures |words| == |e| / 4 * 3 && SplitWords(Trim(JoinWords(words))) == words
    ensures Accepted(list, words, hash0) && DecodedEntropy(list, words) == e
  {
    words := Lookup(list, Indices(hash0, e));
    ReadBack(words);
    DecodeOfEncode(e, list, hash0);
  }
}
