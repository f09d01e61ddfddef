/**
 The public API of core/libs/x25519.js and what it computes: scalar
 multiplication on x-coordinates, hence Diffie-Hellman agreement.
 */
module KeyAgreement {
  import opened MontgomeryCurves
  import opened Numbers
  import opened Results
  import opened X25519
  import opened LittleEndian
  import opened Strings

  // ---------------------------------------------------------------------------
  // Public API
  // ---------------------------------------------------------------------------

  function ScalarMultBytes(scalarBytes: seq<Byte>, uBytes: seq<Byte>): (r: seq<Byte>)
    ensures |r| == 32
  {
    LadderResultRange(Clamped(scalarBytes), Masked(uBytes));
    Encode(LadderResult(Clamped(scalarBytes), Masked(uBytes)), 32)
  }

  function BasePoint(): seq<Byte> { Encode(9, 32) }

  method ScalarMult(scalarBytes: seq<Byte>, uBytes: seq<Byte>) returns (r: Result<seq<Byte>>)
    ensures r.Ok? <==> |scalarBytes| == 32 && |uBytes| == 32
    ensures r.Ok? ==> r.value == ScalarMultBytes(scalarBytes, uBytes)
  {
    var k := ClampScalarBytes(scalarBytes);
    if k.Err? {
      return Err(k.error);
    }
    var u := DecodeUCoordinateBytes(uBytes);
    if u.Err? {
      return Err(u.error);
    }
    var x := MontgomeryLadder(k.value, u.value);
    LadderResultRange(k.value, u.value);
    var bytes := BigIntToBytes(x, 32);
    return Ok(bytes);
  }

  method ScalarMultBase(scalarBytes: seq<Byte>) returns (r: Result<seq<Byte>>)
    ensures r.Ok? <==> |scalarBytes| == 32
    ensures r.Ok? ==> r.value == ScalarMultBytes(scalarBytes, BasePoint())
  {
    var k := ClampScalarBytes(scalarBytes);
    if k.Err? {
      return Err(k.error);
    }
    var x := MontgomeryLadder(k.value, 9);
    LadderResultRange(k.value, 9);
    var bytes := BigIntToBytes(x, 32);
    BasePointMasked();
    return Ok(bytes);
  }

  lemma LadderResultRange(k: nat, u: int)
    ensures 0 <= LadderResult(k, u) < P
  {
  }

  lemma EncodeSmall(x: nat)
    requires x < 4 * TWO_TO_254
    ensures Decode(Encode(x, 32)) == x
  {
    DecodeEncode(x, 32);
    Pow2Of248(31);
    DivModUnique(0, 4 * TWO_TO_254, x);
  }

  lemma EncodeField(x: nat)
    requires x < P
    ensures Decode(Encode(x, 32)) == Masked(Encode(x, 32)) == x
  {
    EncodeSmall(x);
  }

  lemma BasePointMasked()
    ensures Masked(BasePoint()) == 9
  {
    EncodeField(9);
  }

  /** The output is the encoding of a reduced field element, and reading it back as a
      u-coordinate recovers that element. */
  lemma OutputIsCanonical(scalarBytes: seq<Byte>, uBytes: seq<Byte>)
    ensures Decode(ScalarMultBytes(scalarBytes, uBytes)) < P
    ensures Masked(ScalarMultBytes(scalarBytes, uBytes))
         == LadderResult(Clamped(scalarBytes), Masked(uBytes))
  {
    var x := LadderResult(Clamped(scalarBytes), Masked(uBytes));
    LadderResultRange(Clamped(scalarBytes), Masked(uBytes));
    EncodeField(x);
  }

  // ---------------------------------------------------------------------------
  // Non-canonical u-coordinates
  // ---------------------------------------------------------------------------

  ghost predicate SamePoint(p: Proj, q: Proj) {
    p.x % P == q.x % P && p.z % P == q.z % P
  }

  lemma {:induction false} LadderCongruent(k: nat, u: int, u': int, r: seq<(Proj, Proj)>, s: seq<(Proj, Proj)>, t: nat)
    requires t <= 255 && u % P == u' % P && IsLadder(k, u, r) && IsLadder(k, u', s)
    ensures SamePoint(r[t].0, s[t].0) && SamePoint(r[t].1, s[t].1) && (t < 255 ==> r[t] == s[t])
    decreases 255 - t
  {
    if t < 255 {
      LadderCongruent(k, u, u', r, s, t + 1);
      var (r0, r1) := r[t + 1];
      var (s0, s1) := s[t + 1];
      DoubleCongruent(P, r0, s0);
      DoubleCongruent(P, r1, s1);
      DiffAddCongruent(P, u, u', r0, r1, s0, s1);
      assert StepAt(k, u, r, t) && StepAt(k, u', s, t);
    }
  }

  /** Section 5 of RFC 7748: a u-coordinate at or above the prime counts as its residue. */
  lemma NonCanonicalAccepted(k: nat, u: int)
    ensures LadderResult(k, u) == LadderResult(k, u % P)
  {
    ModIdempotent(u, P);
    LadderPairsStep(k, u);
    LadderPairsStep(k, u % P);
    LadderCongruent(k, u, u % P, LadderPairs(k, u), LadderPairs(k, u % P), LowestBit());
  }

  // ---------------------------------------------------------------------------
  // Scalar multiplication on the curve
  // ---------------------------------------------------------------------------

  /** The pair stands for [n]Q and [n+1]Q. */
  ghost predicate PairRepresents<G(!new)>(c: Curve<G>, q: G, n: nat, pair: (Proj, Proj)) {
    Represents(c.x(Times(c, n, q)), pair.0) && Represents(c.x(Times(c, n + 1, q)), pair.1)
  }

  /** The loop invariant of the ladder: the pair of bit t stands for [k>>t]Q and [(k>>t)+1]Q. */
  lemma {:induction false} LadderRepresents<G(!new)>(c: Curve<G>, q: G, k: nat, pairs: seq<(Proj, Proj)>, t: nat)
    requires IsPrime(P) && MontgomeryCurve(c) && c.x(q).Some? && c.x(q).value != 0
    requires k < 2 * TWO_TO_254 && t <= 255 && IsLadder(k, c.x(q).value, pairs)
    ensures PairRepresents(c, q, Shr(k, t), pairs[t])
    decreases 255 - t
  {
    var u := c.x(q).value;
    if t == 255 {
      Pow2Of255(t);
      LadderStart(c, q, k, t);
    } else {
      LadderRepresents(c, q, k, pairs, t + 1);
      var (r0, r1) := pairs[t + 1];
      var n := Shr(k, t + 1);
      ShrStep(k, t);
      LadderRepresentsStep(c, q, n, r0, r1);
      assert StepAt(k, u, pairs, t);
    }
  }

  lemma LadderRepresentsStep<G(!new)>(c: Curve<G>, q: G, n: nat, r0: Proj, r1: Proj)
    requires IsPrime(P) && MontgomeryCurve(c) && c.x(q).Some? && c.x(q).value != 0
    requires PairRepresents(c, q, n, (r0, r1))
    ensures Represents(c.x(Times(c, 2 * n, q)), Double(r0))
    ensures Represents(c.x(Times(c, 2 * n + 1, q)), DiffAdd(c.x(q).value, r0, r1))
    ensures Represents(c.x(Times(c, 2 * n + 2, q)), Double(r1))
  {
    var s, u := Times(c, n, q), c.x(q).value;
    var s' := Times(c, n + 1, q);
    TimesSum(c, n, n, q);
    TimesSum(c, n, n + 1, q);
    TimesSum(c, n + 1, n + 1, q);
    Doubling(c, s, r0);
    Doubling(c, s', r1);
    DifferentialAddition(c, s, q, r0, r1);
    RepresentsReduced(P, c.x(Times(c, 2 * n, q)), DoubleX(r0), DoubleZ(r0));
    RepresentsReduced(P, c.x(Times(c, 2 * n + 1, q)), DiffAddX(r0, r1), DiffAddZ(u, r0, r1));
    RepresentsReduced(P, c.x(Times(c, 2 * n + 2, q)), DoubleX(r1), DoubleZ(r1));
  }

  lemma Pow2Of255(t: nat)
    requires t == 255
    ensures Pow2(t) == 2 * TWO_TO_254
  {
    var n: nat := t - 224;
    Pow2Of248(n);
    assert 8 * (n + 1) == t + 1;
  }

  /** The field of section 4.1 of RFC 7748. */
  lemma FieldSize(t: nat)
    requires t == 255
    ensures P == Pow2(t) - 19
  {
    Pow2Of255(t);
  }

  lemma LadderStart<G(!new)>(c: Curve<G>, q: G, k: nat, t: nat)
    requires MontgomeryCurve(c) && c.x(q).Some?
    requires k < Pow2(t)
    ensures Shr(k, t) == 0
    ensures Represents(c.x(Times(c, 0, q)), Proj(1, 0))
    ensures Represents(c.x(Times(c, 1, q)), Proj(c.x(q).value, 1))
  {
    DivModUnique(0, Pow2(t), k);
    assert Times(c, 1, q) == c.plus(Times(c, 0, q), q) == q;
  }

  function XValue(xq: Option<int>): int {
    match xq
    case None => 0
    case Some(v) => v
  }

  /** The closing division turns a represented coordinate into its value. */
  lemma AffineOf(xq: Option<int>, p: Proj)
    requires IsPrime(P) && Represents(xq, p)
    requires xq.Some? ==> 0 <= xq.value < P
    ensures Mul(p.x, Inverse(p.z)) == XValue(xq)
  {
    var i := Inverse(p.z);
    InverseCorrect(p.z);
    if xq.None? {
      assert p.x * i == 0;
    } else {
      DifferenceDivides(p.x, xq.value * p.z, P);
      Division(p.x, xq.value, p.z, i, P);
    }
  }

  lemma Division(x: int, v: int, z: int, i: int, m: int)
    requires m > 0 && 0 <= v < m
    requires x % m == (v * z) % m && (z * i) % m == 1
    ensures (x * i) % m == v
  {
    MulCongruent(x, v * z, i, i, m);
    assert (v * z) * i == v * (z * i);
    DivModUnique(0, m, 1);
    MulCongruent(v, v, z * i, 1, m);
    DivModUnique(0, m, v);
  }

  lemma {:induction false} LadderAtZero(k: nat, t: nat)
    requires t <= 255
    ensures var (r0, r1) := LadderPair(k, 0, t); r0.z == 0 && (r1.z == 0 || r1.x == 0)
    decreases 255 - t
  {
    if t < 255 {
      LadderAtZero(k, t + 1);
      var (r0, r1) := LadderPair(k, 0, t + 1);
      assert r0.x * r0.z == 0 && r1.x * r1.z == 0;
      assert DoubleZ(r0) == 0 && DoubleZ(r1) == 0 && DiffAddZ(0, r0, r1) == 0;
    }
  }

  /** The point with x-coordinate 0 has order 2, so its multiples all have value 0. */
  lemma {:induction false} TimesAtZero<G(!new)>(c: Curve<G>, q: G, n: nat)
    requires MontgomeryCurve(c) && c.x(q) == Some(0)
    ensures Times(c, n, q) == if n % 2 == 0 then c.O else q
  {
    if n != 0 {
      TimesAtZero(c, q, n - 1);
      assert DoublesAt(c, q) && Cubic(0) == 0;
      DivModUnique(0, P, 0);
      assert c.plus(q, q) == c.O;
    }
  }

  lemma LadderCorrectAtZero<G(!new)>(c: Curve<G>, q: G, k: nat)
    requires IsPrime(P) && MontgomeryCurve(c) && c.x(q) == Some(0)
    ensures LadderResult(k, 0) == XValue(c.x(Times(c, k, q))) == 0
  {
    var r0 := LadderPair(k, 0, LowestBit()).0;
    LadderAtZero(k, LowestBit());
    InverseCorrect(r0.z);
    assert r0.x * Inverse(r0.z) == 0;
    TimesAtZero(c, q, k);
  }

  lemma LadderCorrectElsewhere<G(!new)>(c: Curve<G>, q: G, k: nat)
    requires IsPrime(P) && MontgomeryCurve(c) && k < 2 * TWO_TO_254
    requires c.x(q).Some? && c.x(q).value != 0
    ensures LadderResult(k, c.x(q).value) == XValue(c.x(Times(c, k, q)))
  {
    var u := c.x(q).value;
    LadderPairsStep(k, u);
    LadderRepresents(c, q, k, LadderPairs(k, u), LowestBit());
    assert Shr(k, LowestBit()) == k;
    AffineOf(c.x(Times(c, k, q)), LadderPair(k, u, LowestBit()).0);
  }

  /** The ladder computes scalar multiplication: for every scalar below 2^255 and every
      point Q, canonical u-coordinate or not, the result is the x-coordinate of [k]Q. */
  lemma LadderCorrect<G(!new)>(c: Curve<G>, q: G, k: nat, u: int)
    requires IsPrime(P) && MontgomeryCurve(c)
    requires c.x(q) == Some(u % P) && k < 2 * TWO_TO_254
    ensures LadderResult(k, u) == XValue(c.x(Times(c, k, q)))
  {
    NonCanonicalAccepted(k, u);
    if u % P == 0 {
      LadderCorrectAtZero(c, q, k);
    } else {
      LadderCorrectElsewhere(c, q, k);
    }
  }

  // Agreement needs no more of the ladder than this: it computes scalar multiplication.

  ghost predicate ComputesAt<G>(c: Curve<G>, ladder: (nat, int) -> int, q: G, k: nat, u: int) {
    c.x(q) == Some(u % P) && k < 2 * TWO_TO_254 ==> ladder(k, u) == XValue(c.x(Times(c, k, q)))
  }

  ghost predicate Computes<G(!new)>(c: Curve<G>, ladder: (nat, int) -> int) {
    forall q, k: nat, u :: ComputesAt(c, ladder, q, k, u)
  }

  /** The value printed for a point, infinity included, is a faithful ladder input. */
  lemma LadderOnValue<G(!new)>(c: Curve<G>, ladder: (nat, int) -> int, z: G, r: G, j: nat)
    requires AdditionLaws(c) && XCoordinates(c) && Computes(c, ladder) && j < 2 * TWO_TO_254
    requires c.x(z) == Some(0) && XValue(c.x(Times(c, j, z))) == 0
    ensures ladder(j, XValue(c.x(r))) == XValue(c.x(Times(c, j, r)))
  {
    if r == c.O {
      TimesInfinity(c, j);
      DivModUnique(0, P, 0);
      assert ComputesAt(c, ladder, z, j, 0);
    } else {
      DivModUnique(0, P, c.x(r).value);
      assert ComputesAt(c, ladder, r, j, c.x(r).value);
    }
  }

  /** Feeding one ladder's result to another multiplies the point by both scalars. */
  lemma LadderTwice<G(!new)>(c: Curve<G>, ladder: (nat, int) -> int, q: G, j: nat, k: nat, u: int)
    requires MontgomeryCurve(c) && Computes(c, ladder)
    requires c.x(q) == Some(u % P) && j < 2 * TWO_TO_254 && k < 2 * TWO_TO_254
    ensures ladder(j, ladder(k, u)) == XValue(c.x(Times(c, j * k, q)))
  {
    var z :| c.x(z) == Some(0);
    TimesAtZero(c, z, j);
    assert ComputesAt(c, ladder, q, k, u);
    LadderOnValue(c, ladder, z, Times(c, k, q), j);
    TimesProduct(c, j, k, q);
  }

  lemma LadderCommutes<G(!new)>(c: Curve<G>, ladder: (nat, int) -> int, j: nat, k: nat, u: int)
    requires MontgomeryCurve(c) && Computes(c, ladder) && HasPoint(c, u % P)
    requires j < 2 * TWO_TO_254 && k < 2 * TWO_TO_254
    ensures ladder(j, ladder(k, u)) == ladder(k, ladder(j, u))
  {
    var q :| c.x(q) == Some(u % P);
    LadderTwice(c, ladder, q, j, k, u);
    LadderTwice(c, ladder, q, k, j, u);
    assert j * k == k * j;
  }

  lemma LadderComputes<G(!new)>(c: Curve<G>, ladder: (nat, int) -> int)
    requires IsPrime(P) && MontgomeryCurve(c)
    requires forall k: nat, u :: ladder(k, u) == LadderResult(k, u)
    ensures Computes(c, ladder)
  {
    forall q, k: nat, u ensures ComputesAt(c, ladder, q, k, u) {
      if c.x(q) == Some(u % P) && k < 2 * TWO_TO_254 {
        LadderCorrect(c, q, k, u);
      }
    }
  }

  lemma AgreementOn<G(!new)>(c: Curve<G>, a: seq<Byte>, b: seq<Byte>, uBytes: seq<Byte>)
    requires IsPrime(P) && MontgomeryCurve(c) && HasPoint(c, Masked(uBytes) % P)
    ensures ScalarMultBytes(a, ScalarMultBytes(b, uBytes)) == ScalarMultBytes(b, ScalarMultBytes(a, uBytes))
  {
    ClampedRange(a);
    ClampedRange(b);
    OutputIsCanonical(a, uBytes);
    OutputIsCanonical(b, uBytes);
    var ladder := (k: nat, u: int) => LadderResult(k, u);
    LadderComputes(c, ladder);
    LadderCommutes(c, ladder, Clamped(a), Clamped(b), Masked(uBytes));
  }

  /** Diffie-Hellman: the two orders of applying two private keys agree on every u-coordinate. */
  lemma Agreement<G(!new), H(!new)>(curve: Curve<G>, twist: Curve<H>, a: seq<Byte>, b: seq<Byte>, uBytes: seq<Byte>)
    requires IsPrime(P) && MontgomeryCurve(curve) && MontgomeryCurve(twist) && Covered(curve, twist)
    ensures ScalarMultBytes(a, ScalarMultBytes(b, uBytes)) == ScalarMultBytes(b, ScalarMultBytes(a, uBytes))
  {
    if HasPoint(curve, Masked(uBytes) % P) {
      AgreementOn(curve, a, b, uBytes);
    } else {
      assert HasPoint(twist, Masked(uBytes) % P);
      AgreementOn(twist, a, b, uBytes);
    }
  }

  /** The two parties of a key exchange over the base point compute the same secret. */
  lemma SharedSecretAgrees<G(!new)>(curve: Curve<G>, a: seq<Byte>, b: seq<Byte>)
    requires IsPrime(P) && MontgomeryCurve(curve) && HasPoint(curve, 9)
    ensures ScalarMultBytes(a, ScalarMultBytes(b, BasePoint())) == ScalarMultBytes(b, ScalarMultBytes(a, BasePoint()))
  {
    BasePointMasked();
    DivModUnique(0, P, 9);
    AgreementOn(curve, a, b, BasePoint());
  }
}
