/**
 LatticeEncryption in core/security/quantum-resistant.js: a learning-with-errors
 scheme, and exactly which parameters make its decryption correct.
 */
module LatticeEncryption {
  import opened Numbers
  import opened Strings

  type Vector = seq<int>
  type Matrix = seq<seq<int>>

  // ---------------------------------------------------------------------------
  // Vectors and matrices
  // ---------------------------------------------------------------------------

  /** The sum of the first k products. */
  function Dot(a: Vector, b: Vector, k: nat): int
    requires k <= |a| && k <= |b|
  {
    if k == 0 then 0 else Dot(a, b, k - 1) + a[k - 1] * b[k - 1]
  }

  predicate Rectangular(A: Matrix, rows: nat, cols: nat) {
    |A| == rows && forall i :: 0 <= i < rows ==> |A[i]| == cols
  }

  predicate Square(A: Matrix, n: nat) {
    Rectangular(A, n, n)
  }

  /** A * s + e (mod q). */
  function MatrixVector(A: Matrix, s: Vector, e: Vector, q: nat): (r: Vector)
    requires q > 0 && |e| >= |A| && forall i :: 0 <= i < |A| ==> |A[i]| >= |s|
    ensures |r| == |A|
  {
    seq(|A|, i requires 0 <= i < |A| => (Dot(A[i], s, |s|) + e[i]) % q)
  }

  function Column(A: Matrix, j: nat): (c: Vector)
    requires forall i :: 0 <= i < |A| ==> j < |A[i]|
    ensures |c| == |A|
  {
    seq(|A|, i requires 0 <= i < |A| => A[i][j])
  }

  function Transposed(A: Matrix, cols: nat): (t: Matrix)
    requires Rectangular(A, |A|, cols)
    ensures Rectangular(t, cols, |A|)
  {
    seq(cols, j requires 0 <= j < cols => Column(A, j))
  }

  // ---------------------------------------------------------------------------
  // The scheme as functions of its randomness
  // ---------------------------------------------------------------------------

  function CipherV(b: Vector, r: Vector, e2: Vector, m: Vector, q: nat): (v: Vector)
    requires q > 0 && |b| == |r| == |e2| == |m|
    ensures |v| == |m|
  {
    seq(|m|, i requires 0 <= i < |m| => (Dot(b, r, |b|) + e2[i] + m[i]) % q)
  }

  /** The threshold test: strictly between q/4 and 3q/4. */
  function DecodeBit(val: int, q: nat): int {
    if 4 * val > q && 4 * val < 3 * q then 1 else 0
  }

  function Decoded(s: Vector, u: Vector, v: Vector, q: nat): (m: Vector)
    requires q > 0 && |s| == |u| == |v|
    ensures |m| == |s|
  {
    seq(|s|, i requires 0 <= i < |s| => DecodeBit((v[i] - Dot(s, u, |s|)) % q, q))
  }

  /** Entry i carries a one exactly when byte i of the message is non-zero. */
  function MessageBits(message: seq<Byte>, n: nat): (bits: Vector)
    ensures |bits| == n
  {
    seq(n, i requires 0 <= i < n => if i < |message| && message[i] != 0 then 1 else 0)
  }

  function Encoded(bits: Vector, q: nat): (m: Vector)
    ensures |m| == |bits|
  {
    seq(|bits|, i requires 0 <= i < |bits| => if bits[i] == 1 then q / 2 else 0)
  }

  predicate IsBits(bits: Vector, n: nat) {
    |bits| == n && forall i :: 0 <= i < n ==> bits[i] == 0 || bits[i] == 1
  }

  /** u = A^T r + e1 and v = b.r + e2 + m, for the message entries m. */
  function Ciphertext(A: Matrix, b: Vector, message: seq<Byte>, r: Vector, e1: Vector, e2: Vector, q: nat)
    : (c: (Vector, Vector))
    requires q > 0 && Square(A, |b|) && |b| == |r| == |e1| == |e2|
    ensures |c.0| == |c.1| == |b|
  {
    var n := |b|;
    (MatrixVector(Transposed(A, n), r, e1, q), CipherV(b, r, e2, Encoded(MessageBits(message, n), q), q))
  }

  /** The same threshold test on every entry. */
  function Thresholded(m: Vector, q: nat): (bits: Vector)
    ensures IsBits(bits, |m|)
  {
    seq(|m|, i requires 0 <= i < |m| => DecodeBit(m[i], q))
  }

  /** The number with these bits, the lowest first. */
  function PackedByte(bits: Vector): (byte: nat)
    requires IsBits(bits, |bits|)
    ensures byte < Pow2(|bits|)
  {
    if bits == [] then 0
    else
      var k := |bits| - 1;
      PackedByte(bits[..k]) + bits[k] * Pow2(k)
  }

  function GroupLength(bits: Vector): nat { if |bits| < 8 then |bits| else 8 }

  /** A group of zeros leaves no character. */
  function Character(byte: nat): seq<int> {
    if byte > 0 then [byte] else []
  }

  /** The character codes of the groups of eight bits. */
  function Characters(bits: Vector): (text: seq<int>)
    requires IsBits(bits, |bits|)
  {
    if bits == [] then []
    else
      var k := GroupLength(bits);
      var byte := PackedByte(bits[..k]);
      Character(byte) + Characters(bits[k..])
  }

  lemma Appends(result: seq<int>, byte: nat, rest: seq<int>)
    ensures (if byte > 0 then result + [byte] else result) + rest == result + (Character(byte) + rest)
  {
    if byte > 0 {
      assert result + ([byte] + rest) == (result + [byte]) + rest;
    }
  }

  function DecodedText(m: Vector, q: nat): seq<int> {
    Characters(Thresholded(m, q))
  }

  /** `((x % q) + q) % q` with the truncating remainder is the mathematical residue. */
  function Normalise(x: int, q: nat): (r: int)
    requires q > 0
    ensures r == x % q
  {
    RemainderNormalised(x, q);
    DivModUnique(1, q, x % q);
    (Remainder(x, q) + q) % q
  }

  // ---------------------------------------------------------------------------
  // The class
  // ---------------------------------------------------------------------------

  type Word = w: int | 0 <= w < 0x1_0000

  /** The matrix drawn from 16-bit words. */
  function Residues(words: seq<seq<Word>>, q: nat): (A: Matrix)
    requires q > 0
    ensures |A| == |words| && forall i :: 0 <= i < |A| ==> |A[i]| == |words[i]|
  {
    seq(|words|, i requires 0 <= i < |words| => RowResidues(words[i], q))
  }

  function RowResidues(row: seq<Word>, q: nat): (r: Vector)
    requires q > 0
    ensures |r| == |row|
  {
    seq(|row|, j requires 0 <= j < |row| => row[j] % q)
  }

  /** The vector drawn from random bytes. */
  function Centred(random: seq<Byte>, eta: nat): (v: Vector)
    ensures |v| == |random|
  {
    seq(|random|, i requires 0 <= i < |random| => random[i] % (2 * eta + 1) - eta)
  }

  class LatticeEncryption {
    const n: nat
    const q: nat
    const eta: nat
    var A: Matrix
    var b: Vector
    var s: Vector

    predicate Valid()
      reads this
    {
      n > 0 && q > 0 && eta > 0 && Square(A, n) && |b| == n && |s| == n
    }

    /** Randomness arrives as arguments: 16-bit words for the matrix, bytes for the vectors. */
    constructor (n: nat, q: nat, eta: nat, words: seq<seq<Word>>, secretBytes: seq<Byte>, errorBytes: seq<Byte>)
      requires var size := if n == 0 then 64 else n;
               |words| == size && (forall i :: 0 <= i < size ==> |words[i]| == size)
               && |secretBytes| == size && |errorBytes| == size
      ensures this.n == (if n == 0 then 64 else n)
      ensures this.q == (if q == 0 then 3329 else q)
      ensures this.eta == (if eta == 0 then 2 else eta)
      ensures Valid()
      ensures A == Residues(words, this.q) && s == Centred(secretBytes, this.eta)
      ensures b == MatrixVector(A, s, Centred(errorBytes, this.eta), this.q)
    {
      this.n := if n == 0 then 64 else n;
      this.q := if q == 0 then 3329 else q;
      this.eta := if eta == 0 then 2 else eta;
      new;
      A := GenerateMatrix(words);
      s := GenerateSecretVector(secretBytes);
      var e := GenerateSecretVector(errorBytes);
      b := MatrixVectorMult(A, s, e);
    }

    method GenerateMatrix(words: seq<seq<Word>>) returns (matrix: Matrix)
      requires q > 0
      ensures matrix == Residues(words, q)
      ensures forall i, j :: 0 <= i < |words| && 0 <= j < |words[i]| ==> matrix[i][j] == words[i][j] % q
    {
      matrix := [];
      var i := 0;
      while i < |words|
        invariant 0 <= i <= |words| && matrix == Residues(words, q)[..i]
      {
        var row: Vector := [];
        var j := 0;
        while j < |words[i]|
          invariant 0 <= j <= |words[i]| && row == RowResidues(words[i], q)[..j]
        {
          row := row + [words[i][j] % q];
          j := j + 1;
        }
        assert row == RowResidues(words[i], q);
        matrix := matrix + [row];
        i := i + 1;
      }
    }

    method GenerateSecretVector(random: seq<Byte>) returns (vector: Vector)
      ensures vector == Centred(random, eta)
      ensures forall i :: 0 <= i < |random| ==> vector[i] == random[i] % (2 * eta + 1) - eta
    {
      vector := [];
      var i := 0;
      while i < |random|
        invariant 0 <= i <= |random| && vector == Centred(random, eta)[..i]
      {
        vector := vector + [random[i] % (2 * eta + 1) - eta];
        i := i + 1;
      }
    }

    method MatrixVectorMult(M: Matrix, x: Vector, e: Vector) returns (result: Vector)
      requires q > 0 && |e| >= |M| && forall i :: 0 <= i < |M| ==> |M[i]| >= |x|
      ensures result == MatrixVector(M, x, e, q)
    {
      result := [];
      var i := 0;
      while i < |M|
        invariant 0 <= i <= |M| && |result| == i
        invariant forall k :: 0 <= k < i ==> result[k] == (Dot(M[k], x, |x|) + e[k]) % q
      {
        var sum := 0;
        var j := 0;
        while j < |x|
          invariant 0 <= j <= |x| && sum == Dot(M[i], x, j)
        {
          sum := sum + M[i][j] * x[j];
          j := j + 1;
        }
        result := result + [Normalise(sum + e[i], q)];
        i := i + 1;
      }
    }

    method Transpose(M: Matrix) returns (result: Matrix)
      requires |M| > 0 && Rectangular(M, |M|, |M[0]|)
      ensures result == Transposed(M, |M[0]|)
    {
      result := [];
      var j := 0;
      while j < |M[0]|
        invariant 0 <= j <= |M[0]| && |result| == j
        invariant forall k :: 0 <= k < j ==> result[k] == Column(M, k)
      {
        var row := [];
        var i := 0;
        while i < |M|
          invariant 0 <= i <= |M| && |row| == i
          invariant forall k :: 0 <= k < i ==> row[k] == M[k][j]
        {
          row := row + [M[i][j]];
          i := i + 1;
        }
        result := result + [row];
        j := j + 1;
      }
    }

    method EncodeMessage(message: seq<Byte>) returns (m: Vector)
      ensures m == Encoded(MessageBits(message, n), q)
      ensures |m| == n && forall i :: 0 <= i < n ==> m[i] == if i < |message| && message[i] != 0 then q / 2 else 0
    {
      m := seq(n, _ => 0);
      var limit := if |message| < n then |message| else n;
      var i := 0;
      while i < limit
        invariant 0 <= i <= limit && |m| == n
        invariant forall k :: 0 <= k < n ==> m[k] == if k < i && message[k] != 0 then q / 2 else 0
      {
        m := m[i := if message[i] != 0 then q / 2 else 0];
        i := i + 1;
      }
    }

    /** The three vectors are drawn from random bytes too. */
    method Encrypt(message: seq<Byte>, rBytes: seq<Byte>, e1Bytes: seq<Byte>, e2Bytes: seq<Byte>)
      returns (u: Vector, v: Vector)
      requires Valid() && |rBytes| == |e1Bytes| == |e2Bytes| == n
      ensures (u, v) == Ciphertext(A, b, message, Centred(rBytes, eta), Centred(e1Bytes, eta), Centred(e2Bytes, eta), q)
    {
      var m := EncodeMessage(message);
      var r := GenerateSecretVector(rBytes);
      var e1 := GenerateSecretVector(e1Bytes);
      var e2 := GenerateSecretVector(e2Bytes);
      var transposed := Transpose(A);
      u := MatrixVectorMult(transposed, r, e1);
      var vDot := 0;
      var i := 0;
      while i < n
        invariant 0 <= i <= n && vDot == Dot(b, r, i)
      {
        vDot := vDot + b[i] * r[i];
        i := i + 1;
      }
      v := [];
      i := 0;
      while i < n
        invariant 0 <= i <= n && |v| == i
        invariant forall k :: 0 <= k < i ==> v[k] == (vDot + e2[k] + m[k]) % q
      {
        v := v + [Normalise(vDot + e2[i] + m[i], q)];
        i := i + 1;
      }
      assert v == CipherV(b, r, e2, m, q);
    }

    /** The text is made from the coefficient vector by a second threshold test. */
    method Decrypt(u: Vector, v: Vector) returns (text: seq<int>)
      requires Valid() && |u| == |v| == n
      ensures text == DecodedText(Decoded(s, u, v, q), q)
    {
      var sDotU := 0;
      var i := 0;
      while i < n
        invariant 0 <= i <= n && sDotU == Dot(s, u, i)
      {
        sDotU := sDotU + s[i] * u[i];
        i := i + 1;
      }
      var m := [];
      i := 0;
      while i < n
        invariant 0 <= i <= n && |m| == i
        invariant forall k :: 0 <= k < i ==> m[k] == DecodeBit((v[k] - sDotU) % q, q)
      {
        var val := Normalise(v[i] - sDotU, q);
        m := m + [if 4 * val > q && 4 * val < 3 * q then 1 else 0];
        i := i + 1;
      }
      assert m == Decoded(s, u, v, q);
      text := DecodeMessage(m);
    }

    method DecodeMessage(m: Vector) returns (result: seq<int>)
      ensures result == DecodedText(m, q)
    {
      var binary := Thresholded(m, q);
      result := [];
      var i := 0;
      ghost var text := DecodedText(m, q);
      while i < |binary|
        invariant 0 <= i <= |binary|
        invariant result + Characters(binary[i..]) == text
      {
        var rest := binary[i..];
        var k := GroupLength(rest);
        var byte := PackGroup(rest[..k]);
        Appends(result, byte, Characters(rest[k..]));
        if byte > 0 {
          result := result + [byte];
        }
        assert rest[k..] == binary[i + k..];
        i := i + k;
      }
    }

    /** The inner loop of the decoding. */
    method PackGroup(bits: Vector) returns (byte: nat)
      requires IsBits(bits, |bits|)
      ensures byte == PackedByte(bits)
    {
      byte := 0;
      var j := 0;
      while j < |bits|
        invariant 0 <= j <= |bits|
        invariant byte == PackedByte(bits[..j])
      {
        assert bits[..j + 1][..j] == bits[..j];
        OrOfDisjoint(byte, bits[j], j);
        byte := BitOr(byte, bits[j] * Pow2(j));
        j := j + 1;
      }
      assert bits[..j] == bits;
    }
  }

  // ---------------------------------------------------------------------------
  // The adjoint identity
  // ---------------------------------------------------------------------------

  /** Adding row k to the column sums adds y[k] times that row's product. */
  lemma {:induction false} ColumnSumsGrow(A: Matrix, x: Vector, y: Vector, g: Vector, g': Vector, k: nat, j: nat)
    requires k < |A| && k < |y| && j <= |x| && j <= |g| && j <= |g'| && j <= |A[k]|
    requires forall c :: 0 <= c < j ==> g'[c] == g[c] + A[k][c] * y[k]
    ensures Dot(x, g', j) == Dot(x, g, j) + y[k] * Dot(A[k], x, j)
  {
    if j != 0 {
      ColumnSumsGrow(A, x, y, g, g', k, j - 1);
      var c := j - 1;
      ProductGrows(x[c], g[c], A[k][c], y[k], Dot(A[k], x, c));
    }
  }

  lemma ProductGrows(x: int, g: int, a: int, y: int, d: int)
    ensures x * (g + a * y) + y * d == x * g + y * (d + a * x)
  {
    assert x * (a * y) == y * (a * x);
  }

  /** The products of the rows of A with x. */
  function RowProducts(A: Matrix, x: Vector, n: nat): (p: Vector)
    requires Square(A, n) && |x| == n
    ensures |p| == n
  {
    seq(n, i requires 0 <= i < n => Dot(A[i], x, n))
  }

  /** The partial products of the columns of A with y, over the first k rows. */
  function ColumnProducts(A: Matrix, y: Vector, n: nat, k: nat): (p: Vector)
    requires Square(A, n) && |y| == n && k <= n
    ensures |p| == n
  {
    seq(n, j requires 0 <= j < n => Dot(Column(A, j), y, k))
  }

  lemma {:induction false} DotZero(x: Vector, z: Vector, j: nat)
    requires j <= |x| && j <= |z| && forall c :: 0 <= c < j ==> z[c] == 0
    ensures Dot(x, z, j) == 0
  {
    if j != 0 {
      DotZero(x, z, j - 1);
    }
  }

  /** <x, A^T y> == <A x, y>, row by row. */
  lemma {:induction false} Adjoint(A: Matrix, x: Vector, y: Vector, n: nat, k: nat)
    requires Square(A, n) && |x| == |y| == n && k <= n
    ensures Dot(x, ColumnProducts(A, y, n, k), n) == Dot(RowProducts(A, x, n), y, k)
  {
    if k == 0 {
      DotZero(x, ColumnProducts(A, y, n, 0), n);
    } else {
      Adjoint(A, x, y, n, k - 1);
      ColumnSumsGrow(A, x, y, ColumnProducts(A, y, n, k - 1), ColumnProducts(A, y, n, k), k - 1, n);
      assert RowProducts(A, x, n)[k - 1] == Dot(A[k - 1], x, n);
    }
  }

  // ---------------------------------------------------------------------------
  // Noise
  // ---------------------------------------------------------------------------

  /** Reducing p + e entry by entry changes the product with x by <e, x>, modulo q. */
  lemma {:induction false} DotOfReduced(p: Vector, e: Vector, b: Vector, x: Vector, q: nat, k: nat)
    requires q > 0 && k <= |p| && k <= |e| && k <= |b| && k <= |x|
    requires forall i :: 0 <= i < k ==> b[i] == (p[i] + e[i]) % q
    ensures Dot(b, x, k) % q == (Dot(p, x, k) + Dot(e, x, k)) % q
  {
    if k != 0 {
      var i := k - 1;
      DotOfReduced(p, e, b, x, q, i);
      ModIdempotent(p[i] + e[i], q);
      MulCongruent(b[i], p[i] + e[i], x[i], x[i], q);
      Distribute(p[i], e[i], x[i]);
      AddCongruent(Dot(b, x, i), Dot(p, x, i) + Dot(e, x, i), b[i] * x[i], p[i] * x[i] + e[i] * x[i], q);
    }
  }

  lemma Distribute(p: int, e: int, x: int)
    ensures (p + e) * x == p * x + e * x
    ensures x * (p + e) == x * p + x * e
    ensures p * x == x * p
  {
  }

  function Noise(s: Vector, e: Vector, r: Vector, e1: Vector, e2: Vector, n: nat, i: nat): int
    requires |s| == |e| == |r| == |e1| == |e2| == n && i < n
  {
    Dot(e, r, n) + e2[i] - Dot(s, e1, n)
  }

  lemma PublicProduct(A: Matrix, s: Vector, e: Vector, r: Vector, n: nat, q: nat)
    requires q > 0 && Square(A, n) && |s| == |e| == |r| == n
    ensures Dot(MatrixVector(A, s, e, q), r, n) % q == (Dot(RowProducts(A, s, n), r, n) + Dot(e, r, n)) % q
  {
    DotOfReduced(RowProducts(A, s, n), e, MatrixVector(A, s, e, q), r, q, n);
  }

  lemma {:induction false} SecretProduct(A: Matrix, s: Vector, r: Vector, e1: Vector, n: nat, q: nat, u: Vector, k: nat)
    requires q > 0 && Square(A, n) && |s| == |r| == |e1| == n && u == MatrixVector(Transposed(A, n), r, e1, q)
    requires k <= n
    ensures Dot(s, u, k) % q == (Dot(s, ColumnProducts(A, r, n, n), k) + Dot(s, e1, k)) % q
  {
    if k != 0 {
      var i, p := k - 1, ColumnProducts(A, r, n, n);
      SecretProduct(A, s, r, e1, n, q, u, i);
      CipherEntry(A, r, e1, n, q, i);
      ReducedTerm(Dot(s, u, i), Dot(s, p, i), Dot(s, e1, i), s[i], u[i], p[i], e1[i], q,
                  Dot(s, u, k), Dot(s, p, k), Dot(s, e1, k));
    }
  }

  lemma ReducedTerm(d: int, dp: int, de: int, x: int, b: int, p: int, e: int, q: nat, d': int, dp': int, de': int)
    requires q > 0 && d % q == (dp + de) % q && b == (p + e) % q
    requires d' == d + x * b && dp' == dp + x * p && de' == de + x * e
    ensures d' % q == (dp' + de') % q
  {
    ModIdempotent(p + e, q);
    MulCongruent(x, x, b, p + e, q);
    Distribute(p, e, x);
    AddCongruent(d, dp + de, x * b, x * (p + e), q);
  }

  lemma CipherEntry(A: Matrix, r: Vector, e1: Vector, n: nat, q: nat, i: nat)
    requires q > 0 && Square(A, n) && |r| == |e1| == n && i < n
    ensures MatrixVector(Transposed(A, n), r, e1, q)[i] == (ColumnProducts(A, r, n, n)[i] + e1[i]) % q
  {
    assert Transposed(A, n)[i] == Column(A, i);
  }

  /** What decryption thresholds is the message entry plus the noise, modulo q. */
  lemma ThresholdedValue(A: Matrix, s: Vector, e: Vector, r: Vector, e1: Vector, e2: Vector, m: Vector,
                         n: nat, q: nat, i: nat)
    requires q > 0 && Square(A, n) && |s| == |e| == |r| == |e1| == |e2| == |m| == n && i < n
    ensures var u := MatrixVector(Transposed(A, n), r, e1, q);
            var v := CipherV(MatrixVector(A, s, e, q), r, e2, m, q);
            (v[i] - Dot(s, u, n)) % q == (m[i] + Noise(s, e, r, e1, e2, n, i)) % q
  {
    PublicProduct(A, s, e, r, n, q);
    SecretProduct(A, s, r, e1, n, q, MatrixVector(Transposed(A, n), r, e1, q), n);
    Adjoint(A, s, r, n, n);
    ValueAlgebra(Dot(MatrixVector(A, s, e, q), r, n), Dot(s, MatrixVector(Transposed(A, n), r, e1, q), n),
                 Dot(RowProducts(A, s, n), r, n), Dot(e, r, n), Dot(s, e1, n), e2[i], m[i], q);
  }

  lemma ValueAlgebra(br: int, su: int, common: int, er: int, se1: int, e2: int, m: int, q: nat)
    requires q > 0
    requires br % q == (common + er) % q && su % q == (common + se1) % q
    ensures ((br + e2 + m) % q - su) % q == (m + (er + e2 - se1)) % q
  {
    ModIdempotent(br + e2 + m, q);
    AddCongruent(br, common + er, e2 + m, e2 + m, q);
    AddCongruent((br + e2 + m) % q, common + er + e2 + m, su, common + se1, q);
  }
}
