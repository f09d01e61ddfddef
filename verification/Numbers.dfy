/**
 Integer facts shared by the arithmetic modules: congruence modulo m, powers,
 the bitwise operators of the source's BigInt code, and Fermat's theorem.
 */
module Numbers {

  // ---------------------------------------------------------------------------
  // Division and congruence
  // ---------------------------------------------------------------------------

  lemma MultipleBound(d: int, m: int)
    requires m > 0
    ensures d >= 1 ==> d * m >= m
    ensures d <= -1 ==> d * m <= -m
  {
    if d >= 1 {
      assert d * m == m + (d - 1) * m;
    } else if d <= -1 {
      assert d * m == -m + (d + 1) * m;
    }
  }

  lemma DivModUnique(q: int, m: int, r: int)
    requires 0 <= r < m
    ensures (q * m + r) / m == q
    ensures (q * m + r) % m == r
  {
    var a := q * m + r;
    var d := q - a / m;
    assert d * m == a % m - r by {
      assert a == m * (a / m) + a % m;
    }
    MultipleBound(d, m);
  }

  /** The `%` of JavaScript: the remainder takes the sign of the dividend. */
  function Remainder(a: int, m: int): int
    requires m > 0
  {
    if a >= 0 then a % m else -((-a) % m)
  }

  lemma RemainderNormalised(a: int, m: int)
    requires m > 0
    ensures var r := Remainder(a, m); (if r >= 0 then r else r + m) == a % m
  {
    if a < 0 {
      var q, r := (-a) / m, (-a) % m;
      assert -a == q * m + r;
      if r == 0 {
        assert a == (-q) * m + 0;
        DivModUnique(-q, m, 0);
      } else {
        assert a == (-q - 1) * m + (m - r);
        DivModUnique(-q - 1, m, m - r);
      }
    }
  }

  /** a and b leave the same remainder exactly when m divides their difference. */
  lemma CongruentBy(a: int, b: int, k: int, m: int)
    requires m > 0
    requires a == b + k * m
    ensures a % m == b % m
  {
    var q := b / m;
    assert b == q * m + b % m;
    assert a == (q + k) * m + b % m;
    DivModUnique(q + k, m, b % m);
  }

  lemma ModIdempotent(a: int, m: int)
    requires m > 0
    ensures (a % m) % m == a % m
  {
    DivModUnique(0, m, a % m);
  }

  lemma AddCongruent(a: int, a': int, b: int, b': int, m: int)
    requires m > 0
    requires a % m == a' % m && b % m == b' % m
    ensures (a + b) % m == (a' + b') % m
    ensures (a - b) % m == (a' - b') % m
  {
    var ka, kb := a / m - a' / m, b / m - b' / m;
    assert a == a' + ka * m;
    assert b == b' + kb * m;
    assert a + b == (a' + b') + (ka + kb) * m;
    CongruentBy(a + b, a' + b', ka + kb, m);
    assert a - b == (a' - b') + (ka - kb) * m;
    CongruentBy(a - b, a' - b', ka - kb, m);
  }

  lemma MulCongruent(a: int, a': int, b: int, b': int, m: int)
    requires m > 0
    requires a % m == a' % m && b % m == b' % m
    ensures (a * b) % m == (a' * b') % m
  {
    var ka, kb := a / m - a' / m, b / m - b' / m;
    assert a == a' + ka * m;
    assert b == b' + kb * m;
    var k := ka * b + kb * a';
    calc {
      a * b;
      (a' + ka * m) * b;
      a' * b + ka * m * b;
      a' * (b' + kb * m) + ka * m * b;
      a' * b' + k * m;
    }
    CongruentBy(a * b, a' * b', k, m);
  }

  lemma DifferenceDivides(a: int, b: int, m: int)
    requires m > 0
    ensures a % m == b % m <==> (a - b) % m == 0
  {
    if a % m == b % m {
      AddCongruent(a, b, b, b, m);
    }
    if (a - b) % m == 0 {
      AddCongruent(a - b, 0, b, b, m);
      assert (a - b) + b == a;
    }
  }

  // ---------------------------------------------------------------------------
  // Powers
  // ---------------------------------------------------------------------------

  function Pow(a: int, e: nat): int {
    if e == 0 then 1 else a * Pow(a, e - 1)
  }

  function Pow2(e: nat): (r: nat)
    ensures r >= 1
  {
    if e == 0 then 1 else 2 * Pow2(e - 1)
  }

  lemma {:induction false} Pow2Add(a: nat, b: nat)
    ensures Pow2(a + b) == Pow2(a) * Pow2(b)
  {
    if a != 0 {
      Pow2Add(a - 1, b);
      calc {
        Pow2(a + b);
        2 * Pow2(a - 1 + b);
        2 * (Pow2(a - 1) * Pow2(b));
        Pow2(a) * Pow2(b);
      }
    }
  }

  lemma Pow2Values(a: nat, b: nat, pa: nat, pb: nat)
    requires Pow2(a) == pa && Pow2(b) == pb
    ensures Pow2(a + b) == pa * pb
  {
    Pow2Add(a, b);
  }

  lemma {:induction false} PowCongruent(a: int, b: int, e: nat, m: int)
    requires m > 0
    requires a % m == b % m
    ensures Pow(a, e) % m == Pow(b, e) % m
  {
    if e != 0 {
      PowCongruent(a, b, e - 1, m);
      MulCongruent(a, b, Pow(a, e - 1), Pow(b, e - 1), m);
    }
  }

  /** The identity behind square-and-multiply. */
  lemma {:induction false} PowHalve(a: int, e: nat)
    ensures Pow(a, e) == (if e % 2 == 1 then a else 1) * Pow(a * a, e / 2)
  {
    if e >= 2 {
      PowHalve(a, e - 2);
      var f := if e % 2 == 1 then a else 1;
      assert (e - 2) % 2 == e % 2 && (e - 2) / 2 == e / 2 - 1;
      calc {
        Pow(a, e);
        a * (a * Pow(a, e - 2));
        a * (a * (f * Pow(a * a, e / 2 - 1)));
        f * ((a * a) * Pow(a * a, e / 2 - 1));
        f * Pow(a * a, e / 2);
      }
    }
  }

  lemma {:induction false} PowZero(e: nat)
    requires e > 0
    ensures Pow(0, e) == 0
  {
  }

  // ---------------------------------------------------------------------------
  // Bitwise operators on non-negative integers
  // ---------------------------------------------------------------------------

  function BitOr(a: nat, b: nat): nat
    decreases a + b
  {
    if a == 0 then b
    else if b == 0 then a
    else 2 * BitOr(a / 2, b / 2) + (if a % 2 == 1 || b % 2 == 1 then 1 else 0)
  }

  function BitAnd(a: nat, b: nat): nat {
    if a == 0 || b == 0 then 0
    else 2 * BitAnd(a / 2, b / 2) + (if a % 2 == 1 && b % 2 == 1 then 1 else 0)
  }

  function BitXor(a: nat, b: nat): nat
    decreases a + b
  {
    if a == 0 then b
    else if b == 0 then a
    else 2 * BitXor(a / 2, b / 2) + (if a % 2 != b % 2 then 1 else 0)
  }

  lemma AndOne(a: nat)
    ensures BitAnd(a, 1) == a % 2
  {
  }

  lemma XorBits(a: nat, b: nat)
    requires a < 2 && b < 2
    ensures BitXor(a, b) == if a == b then 0 else 1
  {
  }

  /** Right shift. */
  function Shr(a: nat, n: nat): nat {
    QuotientNonNegative(a, Pow2(n));
    a / Pow2(n)
  }

  lemma QuotientNonNegative(a: nat, m: int)
    requires m > 0
    ensures a / m >= 0
  {
    MultipleBound(a / m, m);
    assert a == (a / m) * m + a % m;
  }

  lemma Halves(x: nat, k: nat)
    ensures x / 2 / Pow2(k) == x / Pow2(k + 1)
  {
    var p := Pow2(k);
    var q, r := x / 2 / p, x / 2 % p;
    assert x == q * (2 * p) + (2 * r + x % 2) by {
      assert x / 2 == q * p + r;
    }
    DivModUnique(q, 2 * p, 2 * r + x % 2);
  }

  lemma {:induction false} ShrStep(a: nat, n: nat)
    ensures Shr(a, n) == 2 * Shr(a, n + 1) + Shr(a, n) % 2
  {
    var p := Pow2(n);
    var q, r := a / (2 * p), a % (2 * p);
    assert a == q * (2 * p) + r;
    if r < p {
      assert a == (2 * q) * p + r;
      DivModUnique(2 * q, p, r);
    } else {
      assert a == (2 * q + 1) * p + (r - p);
      DivModUnique(2 * q + 1, p, r - p);
    }
  }

  /** `a | (b << k)` is a sum when a fits in the k low bits. */
  lemma {:induction false} OrOfDisjoint(a: nat, b: nat, k: nat)
    requires a < Pow2(k)
    ensures BitOr(a, b * Pow2(k)) == a + b * Pow2(k)
  {
    if a != 0 && b * Pow2(k) != 0 {
      var p := Pow2(k - 1);
      assert b * Pow2(k) == 2 * (b * p);
      OrOfDisjoint(a / 2, b, k - 1);
    }
  }

  /** Masking with k low ones keeps the remainder modulo 2^k. */
  lemma {:induction false} AndLowMask(a: nat, k: nat)
    ensures BitAnd(a, Pow2(k) - 1) == a % Pow2(k)
  {
    DivModUnique(0, Pow2(k), 0);
    if k == 0 {
      DivModUnique(a, 1, 0);
    } else if a != 0 {
      AndLowMask(a / 2, k - 1);
      LowBits(a, Pow2(k - 1));
      AndOdd(a, Pow2(k - 1) - 1);
    }
  }

  lemma AndMaskOf(a: nat, k: nat, m: nat)
    requires Pow2(k) == m
    ensures BitAnd(a, m - 1) == a % m
  {
    AndLowMask(a, k);
  }

  lemma AndOdd(a: nat, m: nat)
    requires a != 0
    ensures BitAnd(a, 2 * m + 1) == 2 * BitAnd(a / 2, m) + a % 2
  {
    assert (2 * m + 1) / 2 == m;
  }

  lemma LowBits(a: nat, p: nat)
    requires p > 0
    ensures a % (2 * p) == 2 * ((a / 2) % p) + a % 2
  {
    var h := a / 2;
    var q, r := h / p, h % p;
    assert a == q * (2 * p) + (2 * r + a % 2) by {
      assert h == q * p + r;
    }
    DivModUnique(q, 2 * p, 2 * r + a % 2);
  }

  // ---------------------------------------------------------------------------
  // Primes and Fermat's theorem
  // ---------------------------------------------------------------------------

  ghost predicate IsPrime(p: int) {
    p >= 2 && forall d :: 2 <= d < p ==> p % d != 0
  }

  lemma {:induction false} EuclidReduced(a: int, b: int, p: int)
    requires IsPrime(p) && 0 < a < p
    requires (a * b) % p == 0
    ensures b % p == 0
    decreases a
  {
    if a != 1 {
      var q, r := p / a, p % a;
      assert r * b == p * b - q * (a * b) by {
        assert p == q * a + r;
      }
      CongruentBy(p * b, 0, b, p);
      MulCongruent(q, q, a * b, 0, p);
      AddCongruent(p * b, 0, q * (a * b), 0, p);
      EuclidReduced(r, b, p);
    }
  }

  /** Euclid's lemma. */
  lemma Euclid(a: int, b: int, p: int)
    requires IsPrime(p)
    requires (a * b) % p == 0
    ensures a % p == 0 || b % p == 0
  {
    if a % p != 0 {
      ModIdempotent(a, p);
      MulCongruent(a, a % p, b, b, p);
      EuclidReduced(a % p, b, p);
    }
  }

  function Binomial(n: nat, k: nat): nat {
    if k == 0 then 1
    else if n == 0 then 0
    else Binomial(n - 1, k - 1) + Binomial(n - 1, k)
  }

  lemma {:induction false} BinomialAbove(n: nat, k: nat)
    requires k > n
    ensures Binomial(n, k) == 0
  {
    if n != 0 {
      BinomialAbove(n - 1, k - 1);
      BinomialAbove(n - 1, k);
    }
  }

  lemma {:induction false} BinomialDiagonal(n: nat)
    ensures Binomial(n, n) == 1
  {
    if n != 0 {
      BinomialDiagonal(n - 1);
      BinomialAbove(n - 1, n);
    }
  }

  lemma {:induction false} BinomialAbsorb(n: nat, k: nat)
    requires n > 0 && k > 0
    ensures k * Binomial(n, k) == n * Binomial(n - 1, k - 1)
  {
    if n == 1 {
      if k > 1 {
        BinomialAbove(0, k - 1);
      }
    } else {
      BinomialAbsorb(n - 1, k);
      if k > 1 {
        BinomialAbsorb(n - 1, k - 1);
        AbsorbAlgebra(n, k, Binomial(n - 2, k - 2), Binomial(n - 2, k - 1), Binomial(n - 1, k));
      }
    }
  }

  lemma AbsorbAlgebra(n: int, k: int, u: int, v: int, y: int)
    requires (k - 1) * (u + v) == (n - 1) * u && k * y == (n - 1) * v
    ensures k * (u + v + y) == n * (u + v)
  {
    assert k * (u + v + y) == (u + v) + (k - 1) * (u + v) + k * y;
    assert n * (u + v) == (u + v) + (n - 1) * u + (n - 1) * v;
  }

  /** The first k + 1 terms of the expansion of (a + 1)^n. */
  function BinomialSum(a: int, n: nat, k: nat): int {
    Binomial(n, k) * Pow(a, k) + if k == 0 then 0 else BinomialSum(a, n, k - 1)
  }

  lemma {:induction false} BinomialSumStep(a: int, n: nat, k: nat)
    ensures (a + 1) * BinomialSum(a, n, k) == BinomialSum(a, n + 1, k) + Binomial(n, k) * Pow(a, k + 1)
  {
    if k != 0 {
      BinomialSumStep(a, n, k - 1);
      SumAlgebra(a, Binomial(n, k), Binomial(n, k - 1), Pow(a, k), BinomialSum(a, n, k - 1));
    }
  }

  lemma SumAlgebra(a: int, b: int, b': int, p: int, s: int)
    ensures (a + 1) * (b * p + s) == (b' + b) * p + ((a + 1) * s - b' * p) + b * (a * p)
  {
    assert (a + 1) * (b * p + s) == (a + 1) * s + (a + 1) * (b * p);
    assert (a + 1) * (b * p) == b * p + b * (a * p);
  }

  lemma {:induction false} BinomialTheorem(a: int, n: nat)
    ensures Pow(a + 1, n) == BinomialSum(a, n, n)
  {
    if n != 0 {
      BinomialTheorem(a, n - 1);
      BinomialSumStep(a, n - 1, n);
      BinomialAbove(n - 1, n);
    }
  }

  lemma BinomialDivisible(p: nat, k: nat)
    requires IsPrime(p) && 0 < k < p
    ensures Binomial(p, k) % p == 0
  {
    BinomialAbsorb(p, k);
    CongruentBy(p * Binomial(p - 1, k - 1), 0, Binomial(p - 1, k - 1), p);
    EuclidReduced(k, Binomial(p, k), p);
  }

  lemma AddMultiple(x: int, y: int, z: int, m: int)
    requires m > 0 && x % m == 0
    ensures (x * y + z) % m == z % m
  {
    assert x * y + z == z + (x / m * y) * m by {
      assert x == x / m * m;
    }
    CongruentBy(x * y + z, z, x / m * y, m);
  }

  lemma {:induction false} BinomialSumModP(a: int, p: nat, k: nat)
    requires IsPrime(p) && k < p
    ensures BinomialSum(a, p, k) % p == 1
  {
    if k == 0 {
      DivModUnique(0, p, 1);
      assert BinomialSum(a, p, 0) == 1;
    } else {
      BinomialSumModP(a, p, k - 1);
      BinomialDivisible(p, k);
      AddMultiple(Binomial(p, k), Pow(a, k), BinomialSum(a, p, k - 1), p);
    }
  }

  lemma {:induction false} FermatNat(a: nat, p: nat)
    requires IsPrime(p)
    ensures Pow(a, p) % p == a % p
  {
    if a == 0 {
      PowZero(p);
    } else {
      FermatNat(a - 1, p);
      BinomialTheorem(a - 1, p);
      BinomialSumModP(a - 1, p, p - 1);
      BinomialDiagonal(p);
      DivModUnique(0, p, 1);
      AddCongruent(Pow(a - 1, p), a - 1, BinomialSum(a - 1, p, p - 1), 1, p);
    }
  }

  /** Fermat: a^(p-2) inverts every a that is not a multiple of the prime p. */
  lemma FermatInverse(a: int, p: nat)
    requires IsPrime(p) && a % p != 0
    ensures (a * Pow(a, p - 2)) % p == 1
  {
    var b := a % p;
    ModIdempotent(a, p);
    FermatNat(b, p);
    var t := b * Pow(b, p - 2);
    assert Pow(b, p) == b * t;
    DifferenceDivides(Pow(b, p), b, p);
    assert b * (t - 1) == b * t - b;
    Euclid(b, t - 1, p);
    DifferenceDivides(t, 1, p);
    DivModUnique(0, p, 1);
    PowCongruent(a, b, p - 2, p);
    MulCongruent(a, b, Pow(a, p - 2), Pow(b, p - 2), p);
  }
}
