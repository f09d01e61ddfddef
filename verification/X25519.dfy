/**
 core/libs/x25519.js: arithmetic modulo 2^255 - 19, the Montgomery ladder with
 deferred swaps, and the little-endian codecs around it.
 */
module X25519 {
  import opened Numbers

  const P: nat := 0x7fff_ffff_ffff_ffff_ffff_ffff_ffff_ffff_ffff_ffff_ffff_ffff_ffff_ffff_ffff_ffed
  const A24: nat := 121665

  // ---------------------------------------------------------------------------
  // Field arithmetic
  // ---------------------------------------------------------------------------

  function Mod(a: int): (r: int)
    ensures r == a % P
    ensures 0 <= r < P
  {
    RemainderNormalised(a, P);
    var r := Remainder(a, P);
    if r >= 0 then r else r + P
  }

  function Add(a: int, b: int): int { Mod(a + b) }
  function Sub(a: int, b: int): int { Mod(a - b) }
  function Mul(a: int, b: int): int { Mod(a * b) }

  /** One turn of square-and-multiply keeps r * x^e modulo m. */
  lemma SquareAndMultiplyStep(r: int, x: int, e: nat, m: int)
    requires m > 0
    ensures var r' := if e % 2 == 1 then (r * x) % m else r;
            (r' * Pow((x * x) % m, e / 2)) % m == (r * Pow(x, e)) % m
  {
    var r' := if e % 2 == 1 then (r * x) % m else r;
    var f := if e % 2 == 1 then x else 1;
    var s := Pow(x * x, e / 2);
    PowHalve(x, e);
    ModIdempotent(x * x, m);
    ModIdempotent(r * x, m);
    PowCongruent((x * x) % m, x * x, e / 2, m);
    MulCongruent(r', r * f, Pow((x * x) % m, e / 2), s, m);
    assert (r * f) * s == r * (f * s);
  }

  function Inverse(a: int): (r: int)
    ensures 0 <= r < P
  {
    Mod(Pow(a, InverseExponent()))
  }

  /** A constant, as a function: the solver would unroll the power at a literal. */
  function InverseExponent(): nat { P - 2 }

  lemma InvStep(r: int, x: int, e: nat)
    ensures var r' := if BitAnd(e, 1) == 1 then Mul(r, x) else r;
            (r' * Pow(Mul(x, x), e / 2)) % P == (r * Pow(x, e)) % P
  {
    AndOne(e);
    SquareAndMultiplyStep(r, x, e, P);
  }

  lemma InvEnds(a: int, r: int, x: int)
    ensures (1 * Pow(Mod(a), InverseExponent())) % P == Inverse(a)
    ensures 0 <= r < P ==> (r * Pow(x, 0)) % P == r
  {
    ModIdempotent(a, P);
    PowCongruent(Mod(a), a, InverseExponent(), P);
    if 0 <= r < P {
      DivModUnique(0, P, r);
    }
  }

  method Inv(a: int) returns (r: int)
    ensures r == Inverse(a)
  {
    r := 1;
    var x := Mod(a);
    var e := InverseExponent();
    InvEnds(a, r, x);
    while e > 0
      invariant 0 <= r < P
      invariant (r * Pow(x, e)) % P == Inverse(a)
    {
      InvStep(r, x, e);
      if BitAnd(e, 1) == 1 {
        r := Mul(r, x);
      }
      x := Mul(x, x);
      e := e / 2;
    }
    InvEnds(a, r, x);
  }

  /** inv is a true inverse wherever one exists, and sends 0 to 0. */
  lemma InverseCorrect(a: int)
    requires IsPrime(P)
    ensures Mod(a) != 0 ==> Mul(a, Inverse(a)) == 1
    ensures Mod(a) == 0 ==> Inverse(a) == 0
  {
    var e := InverseExponent();
    if Mod(a) == 0 {
      PowCongruent(a, 0, e, P);
      PowZero(e);
    } else {
      FermatInverse(a, P);
      ModIdempotent(Pow(a, e), P);
      MulCongruent(a, a, Inverse(a), Pow(a, e), P);
    }
  }

  // ---------------------------------------------------------------------------
  // x-only curve arithmetic, as polynomials
  // ---------------------------------------------------------------------------

  /** A projective x-coordinate (x : z). */
  datatype Proj = Proj(x: int, z: int)

  function Sq(a: int): int { a * a }

  /** Doubling: (x^2 - z^2)^2 and 4xz(x^2 + 486662xz + z^2). */
  function DoubleX(p: Proj): int { Sq(Sq(p.x) - Sq(p.z)) }
  function DoubleZ(p: Proj): int { 4 * (p.x * p.z) * (Sq(p.x) + 486662 * (p.x * p.z) + Sq(p.z)) }

  /** Differential addition of p and q, whose difference has x-coordinate u. */
  function DiffAddX(p: Proj, q: Proj): int { 4 * Sq(p.x * q.x - p.z * q.z) }
  function DiffAddZ(u: int, p: Proj, q: Proj): int { u * (4 * Sq(p.x * q.z - p.z * q.x)) }

  function Double(p: Proj): Proj { Proj(Mod(DoubleX(p)), Mod(DoubleZ(p))) }
  function DiffAdd(u: int, p: Proj, q: Proj): Proj { Proj(Mod(DiffAddX(p, q)), Mod(DiffAddZ(u, p, q))) }

  lemma SquareOfDifference(a: int, b: int)
    ensures Sq(a - b) == Sq(b - a)
  {
    assert (a - b) * (a - b) == (b - a) * (b - a);
  }

  lemma DiffAddSymmetric(u: int, p: Proj, q: Proj)
    ensures DiffAdd(u, p, q) == DiffAdd(u, q, p)
  {
    SquareOfDifference(p.x * q.z, p.z * q.x);
    assert p.x * q.x == q.x * p.x && p.z * q.z == q.z * p.z;
    assert p.x * q.z == q.z * p.x && p.z * q.x == q.x * p.z;
  }

  lemma DoubleAlgebra(x: int, z: int)
    ensures Sq(x + z) - Sq(x - z) == 4 * (x * z)
    ensures Sq(x + z) * Sq(x - z) == Sq(Sq(x) - Sq(z))
    ensures Sq(x + z) + 121665 * (4 * (x * z)) == Sq(x) + 486662 * (x * z) + Sq(z)
  {
    var s, d := x + z, x - z;
    assert Sq(s) == Sq(x) + 2 * (x * z) + Sq(z);
    assert Sq(d) == Sq(x) - 2 * (x * z) + Sq(z);
    assert s * d == Sq(x) - Sq(z);
    assert Sq(s) * Sq(d) == (s * d) * (s * d);
  }

  lemma DiffAddAlgebra(p: Proj, q: Proj)
    ensures Sq((q.x - q.z) * (p.x + p.z) + (q.x + q.z) * (p.x - p.z)) == DiffAddX(p, q)
    ensures forall u :: u * Sq((q.x - q.z) * (p.x + p.z) - (q.x + q.z) * (p.x - p.z)) == DiffAddZ(u, p, q)
  {
    var xx, zz, xz, zx := p.x * q.x, p.z * q.z, p.x * q.z, p.z * q.x;
    assert (q.x - q.z) * (p.x + p.z) == xx + zx - xz - zz;
    assert (q.x + q.z) * (p.x - p.z) == xx - zx + xz - zz;
    SquareOfDouble(xx - zz);
    SquareOfDouble(zx - xz);
    SquareOfDifference(xz, zx);
  }

  lemma SquareOfDouble(a: int)
    ensures Sq(2 * a) == 4 * Sq(a)
  {
  }

  /** The temporaries of the doubling half of a ladder step, for any modulus. */
  lemma DoublingTemporaries(m: int, p: Proj, a: int, aa: int, b: int, bb: int, e: int, x: int, z: int)
    requires m > 0
    requires a == (p.x + p.z) % m && aa == (a * a) % m
    requires b == (p.x - p.z) % m && bb == (b * b) % m
    requires e == (aa - bb) % m
    requires x == (aa * bb) % m
    requires z == (e * ((aa + (A24 * e) % m) % m)) % m
    ensures x == DoubleX(p) % m && z == DoubleZ(p) % m
  {
    var s, d, f := Sq(p.x + p.z), Sq(p.x - p.z), 4 * (p.x * p.z);
    DoubleAlgebra(p.x, p.z);
    ModIdempotent(p.x + p.z, m); ModIdempotent(p.x - p.z, m);
    ModIdempotent(a * a, m); ModIdempotent(b * b, m);
    MulCongruent(a, p.x + p.z, a, p.x + p.z, m);
    MulCongruent(b, p.x - p.z, b, p.x - p.z, m);
    AddCongruent(aa, s, bb, d, m);
    ModIdempotent(aa - bb, m);
    MulCongruent(aa, s, bb, d, m);
    MulCongruent(A24, A24, e, f, m);
    ModIdempotent(A24 * e, m);
    AddCongruent(aa, s, (A24 * e) % m, A24 * f, m);
    ModIdempotent(aa + (A24 * e) % m, m);
    MulCongruent(e, f, (aa + (A24 * e) % m) % m, s + A24 * f, m);
  }

  /** The temporaries of the differential-addition half. */
  lemma AdditionTemporaries(m: int, u: int, p: Proj, q: Proj,
                            a: int, b: int, c: int, d: int, da: int, cb: int, x: int, z: int)
    requires m > 0
    requires a == (p.x + p.z) % m && b == (p.x - p.z) % m
    requires c == (q.x + q.z) % m && d == (q.x - q.z) % m
    requires da == (d * a) % m && cb == (c * b) % m
    requires x == (((da + cb) % m) * ((da + cb) % m)) % m
    requires z == (u * ((((da - cb) % m) * ((da - cb) % m)) % m)) % m
    ensures x == DiffAddX(p, q) % m && z == DiffAddZ(u, p, q) % m
  {
    DiffAddAlgebra(p, q);
    ModIdempotent(p.x + p.z, m); ModIdempotent(p.x - p.z, m);
    ModIdempotent(q.x + q.z, m); ModIdempotent(q.x - q.z, m);
    ModIdempotent(d * a, m); ModIdempotent(c * b, m);
    var t, w := (q.x - q.z) * (p.x + p.z), (q.x + q.z) * (p.x - p.z);
    MulCongruent(d, q.x - q.z, a, p.x + p.z, m);
    MulCongruent(c, q.x + q.z, b, p.x - p.z, m);
    AddCongruent(da, t, cb, w, m);
    ModIdempotent(da + cb, m); ModIdempotent(da - cb, m);
    MulCongruent((da + cb) % m, t + w, (da + cb) % m, t + w, m);
    MulCongruent((da - cb) % m, t - w, (da - cb) % m, t - w, m);
    var g := (((da - cb) % m) * ((da - cb) % m)) % m;
    ModIdempotent(((da - cb) % m) * ((da - cb) % m), m);
    MulCongruent(u, u, g, Sq(t - w), m);
  }

  // ---------------------------------------------------------------------------
  // The ladder
  // ---------------------------------------------------------------------------

  /** The textbook ladder: after bits 254 down to t, with no swaps. */
  function LadderPair(k: nat, u: int, t: nat): (Proj, Proj)
    requires t <= 255
    decreases 255 - t
  {
    if t == 255 then (Proj(1, 0), Proj(u, 1))
    else
      var (r0, r1) := LadderPair(k, u, t + 1);
      if Shr(k, t) % 2 == 0 then (Double(r0), DiffAdd(u, r0, r1))
      else (DiffAdd(u, r0, r1), Double(r1))
  }

  /** The step of the ladder from bit t + 1 to bit t, for pairs listed by bit. */
  ghost predicate StepAt(k: nat, u: int, pairs: seq<(Proj, Proj)>, t: nat)
    requires t < 255 && |pairs| == 256
  {
    var (r0, r1) := pairs[t + 1];
    pairs[t] == if Shr(k, t) % 2 == 0 then (Double(r0), DiffAdd(u, r0, r1)) else (DiffAdd(u, r0, r1), Double(r1))
  }

  /** The pairs of the ladder, that of bit t at place t. */
  ghost predicate IsLadder(k: nat, u: int, pairs: seq<(Proj, Proj)>) {
    && |pairs| == 256 && pairs[255] == (Proj(1, 0), Proj(u, 1))
    && forall t: nat | t < 255 :: StepAt(k, u, pairs, t)
  }

  function LadderPairs(k: nat, u: int): (pairs: seq<(Proj, Proj)>)
    ensures |pairs| == 256
  {
    seq(256, t requires 0 <= t < 256 => LadderPair(k, u, t))
  }

  lemma LadderPairsStep(k: nat, u: int)
    ensures IsLadder(k, u, LadderPairs(k, u))
  {
    forall t: nat | t < 255 ensures StepAt(k, u, LadderPairs(k, u), t) {
    }
  }

  /** The constant 0, as a function: the solver would unroll the ladder at a literal. */
  function LowestBit(): nat { 0 }

  function LadderResult(k: nat, u: int): int {
    var r := LadderPair(k, u, LowestBit()).0;
    Mul(r.x, Inverse(r.z))
  }

  /** One ladder step on operands that the pending swap has already put in place. */
  lemma LadderPairStep(k: nat, u: int, t: nat, p: Proj, q: Proj)
    requires t <= 254
    requires LadderPair(k, u, t + 1) == if Shr(k, t) % 2 == 0 then (p, q) else (q, p)
    ensures LadderPair(k, u, t) ==
            if Shr(k, t) % 2 == 0 then (Double(p), DiffAdd(u, p, q)) else (DiffAdd(u, p, q), Double(p))
  {
    DiffAddSymmetric(u, p, q);
  }

  lemma StepTemporaries(u: int, p: Proj, q: Proj, a: int, aa: int, b: int, bb: int, e: int,
                        c: int, d: int, da: int, cb: int)
    requires a == Add(p.x, p.z) && aa == Mul(a, a) && b == Sub(p.x, p.z) && bb == Mul(b, b)
    requires e == Sub(aa, bb) && c == Add(q.x, q.z) && d == Sub(q.x, q.z)
    requires da == Mul(d, a) && cb == Mul(c, b)
    ensures Double(p) == Proj(Mul(aa, bb), Mul(e, Add(aa, Mul(A24, e))))
    ensures DiffAdd(u, p, q) ==
            Proj(Mul(Add(da, cb), Add(da, cb)), Mul(u, Mul(Sub(da, cb), Sub(da, cb))))
  {
    DoublingTemporaries(P, p, a, aa, b, bb, e, Mul(aa, bb), Mul(e, Add(aa, Mul(A24, e))));
    AdditionTemporaries(P, u, p, q, a, b, c, d, da, cb,
                        Mul(Add(da, cb), Add(da, cb)), Mul(u, Mul(Sub(da, cb), Sub(da, cb))));
  }

  method MontgomeryLadder(k: nat, u: int) returns (r: int)
    ensures r == LadderResult(k, u)
  {
    var x1 := u;
    var x2, z2 := 1, 0;
    var x3, z3 := u, 1;
    var swap := 0;
    var t := 254;
    while t >= 0
      invariant -1 <= t <= 254
      invariant swap == 0 || swap == 1
      invariant LadderPair(k, u, t + 1) ==
                if swap == 0 then (Proj(x2, z2), Proj(x3, z3)) else (Proj(x3, z3), Proj(x2, z2))
    {
      var kt := BitAnd(Shr(k, t), 1);
      AndOne(Shr(k, t));
      XorBits(swap, kt);
      swap := BitXor(swap, kt);
      if swap != 0 {
        x2, x3 := x3, x2;
        z2, z3 := z3, z2;
      }
      ghost var p, q := Proj(x2, z2), Proj(x3, z3);

      var A := Add(x2, z2);
      var AA := Mul(A, A);
      var B := Sub(x2, z2);
      var BB := Mul(B, B);
      var E := Sub(AA, BB);
      var C := Add(x3, z3);
      var D := Sub(x3, z3);
      var DA := Mul(D, A);
      var CB := Mul(C, B);

      var X3 := Mul(Add(DA, CB), Add(DA, CB));
      var Z3 := Mul(x1, Mul(Sub(DA, CB), Sub(DA, CB)));
      var X2 := Mul(AA, BB);
      var Z2 := Mul(E, Add(AA, Mul(A24, E)));

      StepTemporaries(u, p, q, A, AA, B, BB, E, C, D, DA, CB);
      LadderPairStep(k, u, t, p, q);

      x3, z3, x2, z2 := X3, Z3, X2, Z2;
      swap := kt;
      t := t - 1;
    }
    if swap != 0 {
      x2, x3 := x3, x2;
      z2, z3 := z3, z2;
    }
    var zInverse := Inv(z2);
    r := Mul(x2, zInverse);
  }
}
