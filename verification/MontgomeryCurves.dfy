/**
 The curve under core/libs/x25519.js, by the affine laws of its x-coordinates, and the proof that the projective
 formulas of the ladder follow from them for every representative of a point.
 */
module MontgomeryCurves {
  import opened Numbers
  import opened Results
  import opened X25519

  // ---------------------------------------------------------------------------
  // The curve
  // ---------------------------------------------------------------------------

  /** The curve group with the x-coordinate of each point; the point at infinity has none. */
  datatype Curve<!G> = Curve(O: G, plus: (G, G) -> G, neg: G -> G, x: G -> Option<int>)

  /** v^3 + 486662 v^2 + v, the right-hand side of the curve equation in section 4.1 of RFC 7748. */
  function Cubic(v: int): int { v * v * v + 486662 * (v * v) + v }

  // The laws are stated through named instances, which the proofs mention one by one.

  ghost predicate Associates<G>(c: Curve<G>, a: G, b: G, d: G) {
    c.plus(c.plus(a, b), d) == c.plus(a, c.plus(b, d))
  }

  ghost predicate Commutes<G>(c: Curve<G>, a: G, b: G) {
    c.plus(a, b) == c.plus(b, a)
  }

  /** The points are a commutative group. */
  ghost predicate AdditionLaws<G(!new)>(c: Curve<G>) {
    && (forall a, b, d :: Associates(c, a, b, d))
    && (forall a, b :: Commutes(c, a, b))
    && (forall a :: c.plus(c.O, a) == a)
    && (forall a :: c.plus(a, c.O) == a)
    && (forall a :: c.plus(a, c.neg(a)) == c.O)
  }

  /** Some point has x-coordinate v. */
  ghost predicate HasPoint<G(!new)>(c: Curve<G>, v: int) {
    exists q :: c.x(q) == Some(v)
  }

  /** The x-coordinate is shared by a point and its negative, and by no other. */
  ghost predicate SharesX<G>(c: Curve<G>, s: G, t: G) {
    c.x(s) == c.x(t) <==> s == t || s == c.neg(t)
  }

  ghost predicate XCoordinates<G(!new)>(c: Curve<G>) {
    && (forall q :: c.x(q) == None <==> q == c.O)
    && (forall q :: c.x(q).Some? ==> 0 <= c.x(q).value < P)
    && (forall s, t :: SharesX(c, s, t))
    && HasPoint(c, 0)
  }

  /** Every field element is an x-coordinate on the curve or on its quadratic twist. */
  ghost predicate Covered<G(!new), H(!new)>(curve: Curve<G>, twist: Curve<H>) {
    forall v: int :: 0 <= v < P ==> HasPoint(curve, v) || HasPoint(twist, v)
  }

  /** 4 (v^3 + 486662 v^2 + v) x(2Q) = (v^2 - 1)^2 for v = x(Q), with 2Q infinite where the cubic is 0. */
  ghost predicate DoublesAt<G>(c: Curve<G>, q: G) {
    c.x(q).Some? ==>
      var v, twice := c.x(q).value, c.x(c.plus(q, q));
      && (twice.None? <==> Cubic(v) % P == 0)
      && (twice.Some? ==> (4 * Cubic(v) * twice.value) % P == ((v * v - 1) * (v * v - 1)) % P)
  }

  /** x(S + T) x(S - T) (x(S) - x(T))^2 = (x(S) x(T) - 1)^2, for different x(S) and x(T). */
  ghost predicate DifferenceAt<G>(c: Curve<G>, s: G, t: G) {
    c.x(s).Some? && c.x(t).Some? && c.x(s) != c.x(t) ==>
      var a, b := c.x(s).value, c.x(t).value;
      var sum, difference := c.x(c.plus(s, t)), c.x(c.plus(s, c.neg(t)));
      && sum.Some? && difference.Some?
      && (sum.value * difference.value * ((a - b) * (a - b))) % P == ((a * b - 1) * (a * b - 1)) % P
  }

  ghost predicate MontgomeryCurve<G(!new)>(c: Curve<G>) {
    && AdditionLaws(c) && XCoordinates(c)
    && (forall q :: DoublesAt(c, q))
    && (forall s, t :: DifferenceAt(c, s, t))
  }

  ghost function Times<G>(c: Curve<G>, n: nat, q: G): G {
    if n == 0 then c.O else c.plus(Times(c, n - 1, q), q)
  }

  lemma {:induction false} TimesSum<G(!new)>(c: Curve<G>, m: nat, n: nat, q: G)
    requires AdditionLaws(c)
    ensures c.plus(Times(c, m, q), Times(c, n, q)) == Times(c, m + n, q)
  {
    if n != 0 {
      TimesSum(c, m, n - 1, q);
      assert Associates(c, Times(c, m, q), Times(c, n - 1, q), q);
    }
  }

  lemma {:induction false} TimesProduct<G(!new)>(c: Curve<G>, m: nat, n: nat, q: G)
    requires AdditionLaws(c)
    ensures Times(c, m, Times(c, n, q)) == Times(c, m * n, q)
  {
    if m != 0 {
      TimesProduct(c, m - 1, n, q);
      assert (m - 1) * n + n == m * n;
      TimesSum(c, (m - 1) * n, n, q);
    }
  }

  lemma {:induction false} TimesInfinity<G(!new)>(c: Curve<G>, n: nat)
    requires AdditionLaws(c)
    ensures Times(c, n, c.O) == c.O
  {
    if n != 0 {
      TimesInfinity(c, n - 1);
    }
  }

  // ---------------------------------------------------------------------------
  // Representatives
  // ---------------------------------------------------------------------------

  /** (x : z) stands for the x-coordinate xq modulo m. */
  ghost predicate RepresentsModulo(m: int, xq: Option<int>, p: Proj)
    requires m > 0
  {
    match xq
    case None => p.z % m == 0 && p.x % m != 0
    case Some(v) => p.z % m != 0 && (p.x - v * p.z) % m == 0
  }

  ghost predicate Represents(xq: Option<int>, p: Proj) { RepresentsModulo(P, xq, p) }

  lemma RepresentsReduced(m: int, xq: Option<int>, x: int, z: int)
    requires m > 0 && RepresentsModulo(m, xq, Proj(x, z))
    ensures RepresentsModulo(m, xq, Proj(x % m, z % m))
  {
    ModIdempotent(x, m);
    ModIdempotent(z, m);
    RepresentsCongruent(m, xq, Proj(x, z), Proj(x % m, z % m));
  }

  lemma RepresentsCongruent(m: int, xq: Option<int>, p: Proj, q: Proj)
    requires m > 0 && p.x % m == q.x % m && p.z % m == q.z % m && RepresentsModulo(m, xq, p)
    ensures RepresentsModulo(m, xq, q)
  {
    if xq.Some? {
      var v := xq.value;
      MulCongruent(v, v, p.z, q.z, m);
      AddCongruent(p.x, q.x, v * p.z, v * q.z, m);
    }
  }

  lemma DoubleCongruent(m: int, p: Proj, q: Proj)
    requires m > 0 && p.x % m == q.x % m && p.z % m == q.z % m
    ensures DoubleX(p) % m == DoubleX(q) % m && DoubleZ(p) % m == DoubleZ(q) % m
  {
    MulCongruent(p.x, q.x, p.x, q.x, m);
    MulCongruent(p.z, q.z, p.z, q.z, m);
    MulCongruent(p.x, q.x, p.z, q.z, m);
    AddCongruent(Sq(p.x), Sq(q.x), Sq(p.z), Sq(q.z), m);
    var d, d' := Sq(p.x) - Sq(p.z), Sq(q.x) - Sq(q.z);
    MulCongruent(d, d', d, d', m);
    var f, f' := p.x * p.z, q.x * q.z;
    MulCongruent(486662, 486662, f, f', m);
    AddCongruent(Sq(p.x), Sq(q.x), 486662 * f, 486662 * f', m);
    AddCongruent(Sq(p.x) + 486662 * f, Sq(q.x) + 486662 * f', Sq(p.z), Sq(q.z), m);
    MulCongruent(4, 4, f, f', m);
    MulCongruent(4 * f, 4 * f', Sq(p.x) + 486662 * f + Sq(p.z), Sq(q.x) + 486662 * f' + Sq(q.z), m);
  }

  lemma DiffAddCongruent(m: int, u: int, u': int, p: Proj, q: Proj, p': Proj, q': Proj)
    requires m > 0 && u % m == u' % m && p.x % m == p'.x % m && p.z % m == p'.z % m
    requires q.x % m == q'.x % m && q.z % m == q'.z % m
    ensures DiffAddX(p, q) % m == DiffAddX(p', q') % m && DiffAddZ(u, p, q) % m == DiffAddZ(u', p', q') % m
  {
    MulCongruent(p.x, p'.x, q.x, q'.x, m);
    MulCongruent(p.z, p'.z, q.z, q'.z, m);
    MulCongruent(p.x, p'.x, q.z, q'.z, m);
    MulCongruent(p.z, p'.z, q.x, q'.x, m);
    AddCongruent(p.x * q.x, p'.x * q'.x, p.z * q.z, p'.z * q'.z, m);
    AddCongruent(p.x * q.z, p'.x * q'.z, p.z * q.x, p'.z * q'.x, m);
    var s, s' := p.x * q.x - p.z * q.z, p'.x * q'.x - p'.z * q'.z;
    var d, d' := p.x * q.z - p.z * q.x, p'.x * q'.z - p'.z * q'.x;
    MulCongruent(s, s', s, s', m);
    MulCongruent(d, d', d, d', m);
    MulCongruent(4, 4, Sq(s), Sq(s'), m);
    MulCongruent(4, 4, Sq(d), Sq(d'), m);
    MulCongruent(u, u', 4 * Sq(d), 4 * Sq(d'), m);
  }

  // ---------------------------------------------------------------------------
  // Products modulo a prime
  // ---------------------------------------------------------------------------

  lemma NonzeroProduct(a: int, b: int, m: int)
    requires IsPrime(m) && a % m != 0 && b % m != 0
    ensures (a * b) % m != 0
  {
    if (a * b) % m == 0 {
      Euclid(a, b, m);
    }
  }

  lemma ZeroProduct(a: int, b: int, m: int)
    requires m > 0 && b % m == 0
    ensures (a * b) % m == 0
  {
    MulCongruent(a, a, b, 0, m);
  }

  lemma SmallNonzero(a: int, m: int)
    requires 0 < a < m
    ensures a % m != 0
  {
    DivModUnique(0, m, a);
  }

  // ---------------------------------------------------------------------------
  // Doubling
  // ---------------------------------------------------------------------------

  lemma DoubleScaled(v: int, z: int)
    ensures DoubleX(Proj(v * z, z)) == Sq(Sq(z)) * Sq(v * v - 1)
    ensures DoubleZ(Proj(v * z, z)) == Sq(Sq(z)) * (4 * Cubic(v))
  {
    var k := Sq(z);
    assert Sq(v * z) == v * v * k by {
      assert (v * z) * (v * z) == v * v * (z * z);
    }
    assert Sq(v * z) - Sq(z) == k * (v * v - 1);
    assert Sq(k * (v * v - 1)) == Sq(k) * Sq(v * v - 1) by {
      SquareOfProduct(k, v * v - 1);
    }
    assert (v * z) * z == v * k;
    assert Sq(v * z) + 486662 * ((v * z) * z) + Sq(z) == k * (v * v + 486662 * v + 1);
    ScaledProduct(v, k);
  }

  lemma SquareOfProduct(a: int, b: int)
    ensures Sq(a * b) == Sq(a) * Sq(b)
  {
    assert (a * b) * (a * b) == (a * a) * (b * b);
  }

  lemma CubicFactor(v: int)
    ensures v * (v * v + 486662 * v + 1) == Cubic(v)
  {
    assert v * (486662 * v) == 486662 * (v * v);
  }

  lemma ScaledProduct(v: int, k: int)
    ensures 4 * (v * k) * (k * (v * v + 486662 * v + 1)) == Sq(k) * (4 * Cubic(v))
  {
    CubicFactor(v);
    ProductOfPairs(v, k, v * v + 486662 * v + 1);
  }

  lemma ProductOfPairs(v: int, k: int, w: int)
    ensures 4 * (v * k) * (k * w) == Sq(k) * (4 * (v * w))
  {
    assert (v * k) * (k * w) == (k * k) * (v * w);
  }

  /** Where the cubic vanishes the numerator of the doubling does not. */
  lemma NumeratorNonzero(v: int, m: int)
    requires IsPrime(m) && m > 486662 * 486662 && Cubic(v) % m == 0
    ensures (v * v - 1) % m != 0
  {
    var d := v * v - 1;
    if d % m == 0 {
      assert Cubic(v) == (v + 486662) * d + (2 * v + 486662) by {
        assert (v + 486662) * d == v * (v * v) + 486662 * (v * v) - v - 486662;
      }
      ZeroProduct(v + 486662, d, m);
      AddCongruent(Cubic(v), 0, (v + 486662) * d, 0, m);
      ZeroProduct(2 * v - 486662, 2 * v + 486662, m);
      assert (2 * v - 486662) * (2 * v + 486662) == 4 * d + (4 - 486662 * 486662);
      ZeroProduct(4, d, m);
      AddCongruent(4 * d, 0, (2 * v - 486662) * (2 * v + 486662), 0, m);
      SmallNonzero(486662 * 486662 - 4, m);
    }
  }

  lemma DoubleInfinite(m: int, p: Proj)
    requires IsPrime(m) && RepresentsModulo(m, None, p)
    ensures RepresentsModulo(m, None, Proj(DoubleX(p), DoubleZ(p)))
  {
    DoubleCongruent(m, p, Proj(p.x, 0));
    NonzeroProduct(p.x, p.x, m);
    NonzeroProduct(Sq(p.x), Sq(p.x), m);
    assert DoubleZ(Proj(p.x, 0)) == 0 && DoubleX(Proj(p.x, 0)) == Sq(Sq(p.x));
  }

  lemma DoubleFinite(m: int, v: int, twice: Option<int>, p: Proj)
    requires IsPrime(m) && m > 486662 * 486662 && RepresentsModulo(m, Some(v), p)
    requires twice.None? <==> Cubic(v) % m == 0
    requires twice.Some? ==> (4 * Cubic(v) * twice.value) % m == Sq(v * v - 1) % m
    ensures RepresentsModulo(m, twice, Proj(DoubleX(p), DoubleZ(p)))
  {
    var scaled := Proj(v * p.z, p.z);
    DifferenceDivides(p.x, v * p.z, m);
    DoubleCongruent(m, p, scaled);
    DoubleScaled(v, p.z);
    NonzeroProduct(p.z, p.z, m);
    NonzeroProduct(Sq(p.z), Sq(p.z), m);
    DoubleRepresents(m, v, twice, Sq(Sq(p.z)));
    RepresentsCongruent(m, twice, Proj(DoubleX(scaled), DoubleZ(scaled)), Proj(DoubleX(p), DoubleZ(p)));
  }

  lemma DoubleRepresents(m: int, v: int, twice: Option<int>, k: int)
    requires IsPrime(m) && m > 486662 * 486662 && k % m != 0
    requires twice.None? <==> Cubic(v) % m == 0
    requires twice.Some? ==> (4 * Cubic(v) * twice.value) % m == Sq(v * v - 1) % m
    ensures RepresentsModulo(m, twice, Proj(k * Sq(v * v - 1), k * (4 * Cubic(v))))
  {
    match twice
    case None =>
      NumeratorNonzero(v, m);
      NonzeroProduct(v * v - 1, v * v - 1, m);
      NonzeroProduct(k, Sq(v * v - 1), m);
      ZeroProduct(4, Cubic(v), m);
      ZeroProduct(k, 4 * Cubic(v), m);
    case Some(y) =>
      SmallNonzero(4, m);
      NonzeroProduct(4, Cubic(v), m);
      NonzeroProduct(k, 4 * Cubic(v), m);
      Quotient(m, Sq(v * v - 1), y, 4 * Cubic(v), k);
  }

  /** n = y d modulo m gives the same for the multiples by k. */
  lemma Quotient(m: int, n: int, y: int, d: int, k: int)
    requires m > 0 && (d * y) % m == n % m
    ensures (k * n - y * (k * d)) % m == 0
  {
    DifferenceDivides(n, d * y, m);
    ZeroProduct(k, n - d * y, m);
    ScaledDifference(n, y, d, k);
  }

  lemma ScaledDifference(n: int, y: int, d: int, k: int)
    ensures k * (n - d * y) == k * n - y * (k * d)
  {
    assert k * (d * y) == y * (k * d);
  }

  /** The ladder's doubling, on any representative of any point. */
  lemma Doubling<G(!new)>(c: Curve<G>, q: G, p: Proj)
    requires IsPrime(P) && MontgomeryCurve(c) && Represents(c.x(q), p)
    ensures Represents(c.x(c.plus(q, q)), Proj(DoubleX(p), DoubleZ(p)))
  {
    assert DoublesAt(c, q);
    match c.x(q)
    case None => DoubleInfinite(P, p);
    case Some(v) => DoubleFinite(P, v, c.x(c.plus(q, q)), p);
  }

  // ---------------------------------------------------------------------------
  // Differential addition
  // ---------------------------------------------------------------------------

  lemma CrossProducts(a: int, y: int, b: int, z: int)
    ensures (a * y) * (b * z) - y * z == (y * z) * (a * b - 1)
    ensures (a * y) * z - y * (b * z) == (y * z) * (a - b)
  {
    assert (a * y) * (b * z) == (y * z) * (a * b);
    assert (a * y) * z == (y * z) * a && y * (b * z) == (y * z) * b;
  }

  lemma Reordered(u: int, k: int, d: int)
    ensures u * (4 * (k * d)) == 4 * k * (u * d)
  {
    assert u * (k * d) == k * (u * d);
  }

  lemma DiffAddScaled(u: int, a: int, y: int, b: int, z: int)
    ensures DiffAddX(Proj(a * y, y), Proj(b * z, z)) == 4 * Sq(y * z) * Sq(a * b - 1)
    ensures DiffAddZ(u, Proj(a * y, y), Proj(b * z, z)) == 4 * Sq(y * z) * (u * Sq(a - b))
  {
    CrossProducts(a, y, b, z);
    SquareOfProduct(y * z, a * b - 1);
    SquareOfProduct(y * z, a - b);
    Reordered(u, Sq(y * z), Sq(a - b));
  }

  lemma NonzeroScale(y: int, z: int, m: int)
    requires IsPrime(m) && m > 4 && y % m != 0 && z % m != 0
    ensures (4 * Sq(y * z)) % m != 0
  {
    NonzeroProduct(y, z, m);
    NonzeroProduct(y * z, y * z, m);
    SmallNonzero(4, m);
    NonzeroProduct(4, Sq(y * z), m);
  }

  /** The general case: x(S) = a and x(T) = b differ, x(S - T) = u, x(S + T) = y. */
  lemma DiffAddFinite(m: int, u: int, a: int, b: int, y: int, p: Proj, r: Proj)
    requires IsPrime(m) && m > 4 && RepresentsModulo(m, Some(a), p) && RepresentsModulo(m, Some(b), r)
    requires u % m != 0 && (a - b) % m != 0
    requires (u * Sq(a - b) * y) % m == Sq(a * b - 1) % m
    ensures RepresentsModulo(m, Some(y), Proj(DiffAddX(p, r), DiffAddZ(u, p, r)))
  {
    var p', r' := Proj(a * p.z, p.z), Proj(b * r.z, r.z);
    DifferenceDivides(p.x, a * p.z, m);
    DifferenceDivides(r.x, b * r.z, m);
    DiffAddCongruent(m, u, u, p, r, p', r');
    DiffAddScaled(u, a, p.z, b, r.z);
    NonzeroScale(p.z, r.z, m);
    DiffAddRepresents(m, u, a, b, y, 4 * Sq(p.z * r.z));
    RepresentsCongruent(m, Some(y), Proj(DiffAddX(p', r'), DiffAddZ(u, p', r')),
                        Proj(DiffAddX(p, r), DiffAddZ(u, p, r)));
  }

  lemma DiffAddRepresents(m: int, u: int, a: int, b: int, y: int, k: int)
    requires IsPrime(m) && k % m != 0 && u % m != 0 && (a - b) % m != 0
    requires (u * Sq(a - b) * y) % m == Sq(a * b - 1) % m
    ensures RepresentsModulo(m, Some(y), Proj(k * Sq(a * b - 1), k * (u * Sq(a - b))))
  {
    NonzeroProduct(a - b, a - b, m);
    NonzeroProduct(u, Sq(a - b), m);
    NonzeroProduct(k, u * Sq(a - b), m);
    Quotient(m, Sq(a * b - 1), y, u * Sq(a - b), k);
  }

  /** x(S) = x(T) = a: S + T is infinite. */
  lemma DiffAddOpposite(m: int, u: int, a: int, p: Proj, r: Proj)
    requires IsPrime(m) && m > 4 && RepresentsModulo(m, Some(a), p) && RepresentsModulo(m, Some(a), r)
    requires (a * a - 1) % m != 0
    ensures RepresentsModulo(m, None, Proj(DiffAddX(p, r), DiffAddZ(u, p, r)))
  {
    var p', r' := Proj(a * p.z, p.z), Proj(a * r.z, r.z);
    DifferenceDivides(p.x, a * p.z, m);
    DifferenceDivides(r.x, a * r.z, m);
    DiffAddCongruent(m, u, u, p, r, p', r');
    DiffAddScaled(u, a, p.z, a, r.z);
    NonzeroScale(p.z, r.z, m);
    NonzeroProduct(a * a - 1, a * a - 1, m);
    NonzeroProduct(4 * Sq(p.z * r.z), Sq(a * a - 1), m);
    assert DiffAddZ(u, p', r') == 0;
  }

  /** One of the two points is infinite, the other has x-coordinate u. */
  lemma DiffAddInfinite(m: int, u: int, p: Proj, r: Proj)
    requires IsPrime(m) && m > 4 && u % m != 0
    requires RepresentsModulo(m, None, p) && RepresentsModulo(m, Some(u), r)
    ensures RepresentsModulo(m, Some(u), Proj(DiffAddX(p, r), DiffAddZ(u, p, r)))
    ensures RepresentsModulo(m, Some(u), Proj(DiffAddX(r, p), DiffAddZ(u, r, p)))
  {
    var p', r' := Proj(p.x, 0), Proj(u * r.z, r.z);
    DifferenceDivides(r.x, u * r.z, m);
    DiffAddCongruent(m, u, u, p, r, p', r');
    DiffAddCongruent(m, u, u, r, p, r', p');
    NonzeroScale(p.x, r.z, m);
    var k := 4 * Sq(p.x * r.z);
    InfiniteScaled(u, p.x, r.z);
    NonzeroProduct(u, k, m);
    assert u * u * k - u * (u * k) == 0;
    RepresentsCongruent(m, Some(u), Proj(u * u * k, u * k), Proj(DiffAddX(p, r), DiffAddZ(u, p, r)));
    RepresentsCongruent(m, Some(u), Proj(u * u * k, u * k), Proj(DiffAddX(r, p), DiffAddZ(u, r, p)));
  }

  lemma InfiniteScaled(u: int, x: int, z: int)
    ensures DiffAddX(Proj(x, 0), Proj(u * z, z)) == u * u * (4 * Sq(x * z))
    ensures DiffAddX(Proj(u * z, z), Proj(x, 0)) == u * u * (4 * Sq(x * z))
    ensures DiffAddZ(u, Proj(x, 0), Proj(u * z, z)) == u * (4 * Sq(x * z))
    ensures DiffAddZ(u, Proj(u * z, z), Proj(x, 0)) == u * (4 * Sq(x * z))
  {
    assert x * (u * z) == u * (x * z) && (u * z) * x == u * (x * z);
    SquareOfProduct(u, x * z);
    assert 4 * (Sq(u) * Sq(x * z)) == u * u * (4 * Sq(x * z));
    assert (u * z) * 0 - z * x == -(x * z);
    assert Sq(-(x * z)) == Sq(x * z);
  }

  lemma Opposite<G(!new)>(c: Curve<G>, a: G, b: G)
    requires AdditionLaws(c) && c.plus(a, b) == c.O
    ensures a == c.neg(b)
  {
    assert Associates(c, a, b, c.neg(b));
  }

  lemma Cancel<G(!new)>(c: Curve<G>, s: G, d: G)
    requires AdditionLaws(c) && c.plus(s, d) == s
    ensures d == c.O
  {
    assert Associates(c, c.neg(s), s, d) && Commutes(c, s, c.neg(s));
  }

  /** (S + D) - S = D. */
  lemma DifferenceBack<G(!new)>(c: Curve<G>, s: G, d: G)
    requires AdditionLaws(c)
    ensures c.plus(c.plus(s, d), c.neg(s)) == d
  {
    assert Commutes(c, s, d);
    assert Associates(c, d, s, c.neg(s));
  }

  /** Where S + D = -S: x(2S) = x(D) is finite and not 0, so the numerator does not vanish at x(S). */
  lemma OppositeNumerator<G(!new)>(c: Curve<G>, s: G, d: G, a: int)
    requires IsPrime(P) && MontgomeryCurve(c) && c.x(s) == Some(a) && c.x(d).Some? && c.x(d).value != 0
    requires c.plus(s, c.plus(s, d)) == c.O
    ensures (a * a - 1) % P != 0
  {
    var v := c.x(d).value;
    assert Associates(c, s, s, d);
    Opposite(c, c.plus(s, s), d);
    assert SharesX(c, c.plus(s, s), d);
    assert DoublesAt(c, s);
    SmallNonzero(v, P);
    NumeratorOf(P, a, v);
  }

  lemma NumeratorOf(m: int, a: int, v: int)
    requires IsPrime(m) && m > 4 && v % m != 0 && Cubic(a) % m != 0
    requires (4 * Cubic(a) * v) % m == ((a * a - 1) * (a * a - 1)) % m
    ensures (a * a - 1) % m != 0
  {
    SmallNonzero(4, m);
    NonzeroProduct(4, Cubic(a), m);
    NonzeroProduct(4 * Cubic(a), v, m);
    if (a * a - 1) % m == 0 {
      ZeroProduct(a * a - 1, a * a - 1, m);
    }
  }

  /** The ladder's differential addition, on any representatives of S and S + D, for x(D) neither 0 nor infinite. */
  lemma DifferentialAddition<G(!new)>(c: Curve<G>, s: G, d: G, p: Proj, r: Proj)
    requires IsPrime(P) && MontgomeryCurve(c) && c.x(d).Some? && c.x(d).value != 0
    requires Represents(c.x(s), p) && Represents(c.x(c.plus(s, d)), r)
    ensures Represents(c.x(c.plus(s, c.plus(s, d))), Proj(DiffAddX(p, r), DiffAddZ(c.x(d).value, p, r)))
  {
    var t, u := c.plus(s, d), c.x(d).value;
    SmallNonzero(u, P);
    if s == c.O {
      DiffAddInfinite(P, u, p, r);
    } else if t == c.O {
      Opposite(c, s, d);
      assert SharesX(c, s, d);
      DiffAddInfinite(P, u, r, p);
    } else if c.x(s) == c.x(t) {
      assert SharesX(c, s, t);
      if s == t {
        Cancel(c, s, d);
      }
      assert Commutes(c, s, t);
      OppositeNumerator(c, s, d, c.x(s).value);
      DiffAddOpposite(P, u, c.x(s).value, p, r);
    } else {
      DifferentPoints(c, s, d, p, r);
    }
  }

  lemma DifferentPoints<G(!new)>(c: Curve<G>, s: G, d: G, p: Proj, r: Proj)
    requires IsPrime(P) && MontgomeryCurve(c) && c.x(d).Some? && c.x(d).value % P != 0
    requires c.x(s).Some? && c.x(c.plus(s, d)).Some? && c.x(s) != c.x(c.plus(s, d))
    requires Represents(c.x(s), p) && Represents(c.x(c.plus(s, d)), r)
    ensures Represents(c.x(c.plus(s, c.plus(s, d))), Proj(DiffAddX(p, r), DiffAddZ(c.x(d).value, p, r)))
  {
    var t, u := c.plus(s, d), c.x(d).value;
    var a, b := c.x(s).value, c.x(t).value;
    assert DifferenceAt(c, t, s) && Commutes(c, s, t);
    DifferenceBack(c, s, d);
    var y := c.x(c.plus(s, t)).value;
    DifferentValues(a, b, P);
    TurnAround(P, u, a, b, y);
    DiffAddFinite(P, u, a, b, y, p, r);
  }

  lemma DifferentValues(a: int, b: int, m: int)
    requires 0 <= a < m && 0 <= b < m && a != b
    ensures (a - b) % m != 0
  {
    DivModUnique(0, m, a);
    DivModUnique(0, m, b);
    DifferenceDivides(a, b, m);
  }

  lemma TurnAround(m: int, u: int, a: int, b: int, y: int)
    requires m > 0 && (y * u * ((b - a) * (b - a))) % m == ((b * a - 1) * (b * a - 1)) % m
    ensures (u * Sq(a - b) * y) % m == Sq(a * b - 1) % m
  {
    assert Sq(a - b) == (b - a) * (b - a);
    assert u * Sq(a - b) * y == y * u * Sq(a - b);
    assert a * b == b * a;
  }
}
