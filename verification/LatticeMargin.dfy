/**
 Which parameters of LatticeEncryption (core/security/quantum-resistant.js) make decryption right, exactly:
 for every key, every message and all randomness that the byte draws can produce.
 */
module LatticeMargin {
  import opened LatticeEncryption
  import opened Numbers
  import opened Strings

  // ---------------------------------------------------------------------------
  // What can be drawn
  // ---------------------------------------------------------------------------

  /** A byte modulo 2 * eta + 1, less eta: beyond eta = 127 the upper end is not reached. */
  function Top(eta: nat): int {
    if eta <= 127 then eta else 255 - eta
  }

  predicate Drawable(x: int, eta: nat) {
    0 - eta <= x <= Top(eta)
  }

  ghost predicate Drawn(v: Vector, n: nat, eta: nat) {
    exists random: seq<Byte> :: |random| == n && v == Centred(random, eta)
  }

  lemma DrawnByte(x: int, eta: nat) returns (b: Byte)
    requires Drawable(x, eta)
    ensures b % (2 * eta + 1) - eta == x
  {
    b := x + eta;
    DivModUnique(0, 2 * eta + 1, b);
  }

  lemma ByteDraw(b: Byte, eta: nat)
    ensures Drawable(b % (2 * eta + 1) - eta, eta)
  {
    if 2 * eta + 1 > b {
      DivModUnique(0, 2 * eta + 1, b);
    }
  }

  /** Exactly the vectors with entries from -eta to Top(eta) can be drawn. */
  lemma DrawnIff(v: Vector, n: nat, eta: nat)
    ensures Drawn(v, n, eta) <==> |v| == n && forall i :: 0 <= i < n ==> Drawable(v[i], eta)
  {
    if Drawn(v, n, eta) {
      var random: seq<Byte> :| |random| == n && v == Centred(random, eta);
      forall i | 0 <= i < n ensures Drawable(v[i], eta) {
        ByteDraw(random[i], eta);
      }
    }
    if |v| == n && forall i :: 0 <= i < n ==> Drawable(v[i], eta) {
      var random := DrawVector(v, n, eta);
    }
  }

  lemma {:induction false} DrawVector(v: Vector, n: nat, eta: nat) returns (random: seq<Byte>)
    requires |v| == n && forall i :: 0 <= i < n ==> Drawable(v[i], eta)
    ensures |random| == n && v == Centred(random, eta)
  {
    random := [];
    if n > 0 {
      random := DrawVector(v[..n - 1], n - 1, eta);
      var b := DrawnByte(v[n - 1], eta);
      random := random + [b];
    }
  }

  // ---------------------------------------------------------------------------
  // Which noise does no harm
  // ---------------------------------------------------------------------------

  /** Both message values survive the noise. */
  predicate Harmless(noise: int, q: nat)
    requires q > 0
  {
    DecodeBit(noise % q, q) == 0 && DecodeBit((q / 2 + noise) % q, q) == 1
  }

  predicate TooLow(noise: int, q: nat) {
    4 * noise <= if q % 2 == 1 then 2 - q else 0 - q
  }

  predicate TooHigh(noise: int, q: nat) {
    if q % 2 == 1 then 4 * noise > q else 4 * noise >= q
  }

  predicate InRange(noise: int, q: nat) {
    !TooLow(noise, q) && !TooHigh(noise, q)
  }

  lemma InRangeIsHarmless(noise: int, q: nat)
    requires q > 0 && InRange(noise, q)
    ensures Harmless(noise, q)
  {
    DivModUnique(0, q, q / 2 + noise);
    if noise >= 0 {
      DivModUnique(0, q, noise);
    } else {
      DivModUnique(-1, q, noise + q);
    }
  }

  /** Harmless noise is in range after adding a multiple of q. */
  lemma HarmlessIsInRange(noise: int, q: nat) returns (j: int)
    requires q > 0 && Harmless(noise, q)
    ensures InRange(noise + j * q, q)
  {
    var r := noise % q;
    var k := noise / q;
    assert noise == k * q + r;
    AddCongruent(q / 2, q / 2, noise, r, q) by {
      ModIdempotent(noise, q);
    }
    assert (q / 2 + noise) % q == (q / 2 + r) % q;
    if 4 * r <= q {
      j := -k;
      DivModUnique(0, q, q / 2 + r);
      assert noise + j * q == r;
    } else {
      j := -k - 1;
      DivModUnique(1, q, q / 2 + r - q);
      Subtract(k, q);
      assert noise + j * q == r - q;
    }
  }

  lemma Subtract(k: int, q: int)
    ensures (-k - 1) * q == -(k * q) - q
  {
  }

  lemma MultipleAway(j: int, q: int)
    requires q > 0 && j != 0
    ensures j * q >= q || j * q <= -q
  {
    MultipleBound(j, q);
  }

  /** Noise just past the lower end, by no more than q / 4, does harm. */
  lemma JustTooLow(noise: int, step: int, q: nat)
    requires q > 0 && 4 * step <= q && TooLow(noise, q) && !TooLow(noise + step, q)
    ensures !Harmless(noise, q)
  {
    if Harmless(noise, q) {
      var j := HarmlessIsInRange(noise, q);
      if j != 0 {
        MultipleAway(j, q);
      }
    }
  }

  lemma JustTooHigh(noise: int, step: int, q: nat)
    requires q > 0 && 4 * step <= q && TooHigh(noise, q) && !TooHigh(noise - step, q)
    ensures !Harmless(noise, q)
  {
    if Harmless(noise, q) {
      var j := HarmlessIsInRange(noise, q);
      if j != 0 {
        MultipleAway(j, q);
      }
    }
  }

  lemma HarmlessCongruent(a: int, b: int, q: nat)
    requires q > 0 && a % q == b % q
    ensures Harmless(a, q) == Harmless(b, q)
  {
    AddCongruent(q / 2, q / 2, a, b, q);
  }

  // ---------------------------------------------------------------------------
  // The noise of entries from an interval
  // ---------------------------------------------------------------------------

  /** The entry with the greatest square, and two entries with the least product. */
  function Far(lo: int, hi: int): int { if lo * lo > hi * hi then lo else hi }
  function NearA(lo: int, hi: int): int { if hi < 0 then hi else lo }
  function NearB(lo: int, hi: int): int { if lo > 0 then lo else hi }

  lemma Scale(a: int, b: int, c: int)
    requires a <= b && c >= 0
    ensures a * c <= b * c
  {
  }

  lemma SameSigns(a: int, b: int, hi: int)
    requires 0 <= a <= hi && 0 <= b <= hi
    ensures 0 <= a * b <= hi * hi
  {
    Scale(0, a, b);
    Scale(a, hi, b);
    Scale(b, hi, hi);
  }

  lemma OppositeSigns(a: int, b: int, hi: int, lo: int)
    requires 0 <= a <= hi && lo <= b <= 0
    ensures lo * hi <= a * b <= 0
  {
    Scale(lo, b, a);
    Scale(b, 0, a);
    Scale(a, hi, -lo);
    assert a * -lo == -(lo * a) && hi * -lo == -(lo * hi);
  }

  lemma SquareNonNegative(a: int)
    ensures 0 <= a * a == -a * -a
  {
  }

  lemma ProductRange(lo: int, hi: int, a: int, b: int)
    requires lo <= a <= hi && lo <= b <= hi
    ensures NearA(lo, hi) * NearB(lo, hi) <= a * b <= Far(lo, hi) * Far(lo, hi)
  {
    if lo > 0 {
      Positive(lo, hi, a, b);
      Positive(lo, hi, lo, lo);
    } else if hi < 0 {
      Positive(-hi, -lo, -a, -b);
      Positive(-hi, -lo, -lo, -lo);
      assert -a * -b == a * b;
      SquareNonNegative(lo);
      SquareNonNegative(hi);
    } else {
      MixedRange(lo, hi, a, b);
    }
  }

  lemma Positive(lo: int, hi: int, a: int, b: int)
    requires 0 < lo <= a <= hi && lo <= b <= hi
    ensures lo * lo <= a * b <= hi * hi
  {
    Scale(lo, b, lo);
    Scale(lo, a, b);
    Scale(a, hi, b);
    Scale(b, hi, hi);
  }

  lemma MixedRange(lo: int, hi: int, a: int, b: int)
    requires lo <= a <= hi && lo <= b <= hi && lo <= 0 <= hi
    ensures lo * hi <= a * b
    ensures a * b <= if lo * lo > hi * hi then lo * lo else hi * hi
  {
    SquareNonNegative(lo);
    SquareNonNegative(hi);
    OppositeSigns(0, 0, hi, lo);
    if a >= 0 && b >= 0 {
      SameSigns(a, b, hi);
    } else if a < 0 && b < 0 {
      SameSigns(-a, -b, -lo);
      assert -a * -b == a * b;
    } else if a >= 0 {
      OppositeSigns(a, b, hi, lo);
    } else {
      OppositeSigns(b, a, hi, lo);
    }
  }

  /** The farthest that n pairs of products can pull apart. */
  function Spread(n: nat, lo: int, hi: int): int {
    n * (Far(lo, hi) * Far(lo, hi) - NearA(lo, hi) * NearB(lo, hi))
  }

  /**
   The noise as a function of all the entries that make it, laid out in one sequence: e, r, s, e1 of n entries
   each, and the one entry of e2. The first k products count.
   */
  function Form(x: seq<int>, n: nat, k: nat): int
    requires |x| == 4 * n + 1 && k <= n
  {
    if k == 0 then x[4 * n]
    else Form(x, n, k - 1) + x[k - 1] * x[n + k - 1] - x[2 * n + k - 1] * x[3 * n + k - 1]
  }

  predicate InBox(x: seq<int>, lo: int, hi: int) {
    forall i :: 0 <= i < |x| ==> lo <= x[i] <= hi
  }

  lemma {:induction false} FormRange(x: seq<int>, n: nat, k: nat, lo: int, hi: int)
    requires |x| == 4 * n + 1 && k <= n && InBox(x, lo, hi)
    ensures lo - Spread(k, lo, hi) <= Form(x, n, k) <= hi + Spread(k, lo, hi)
  {
    if k > 0 {
      FormRange(x, n, k - 1, lo, hi);
      ProductRange(lo, hi, x[k - 1], x[n + k - 1]);
      ProductRange(lo, hi, x[2 * n + k - 1], x[3 * n + k - 1]);
      SpreadStep(k - 1, lo, hi);
    }
  }

  lemma SpreadNonNegative(n: nat, lo: int, hi: int)
    requires lo <= hi
    ensures Spread(n, lo, hi) >= 0
  {
    ProductRange(lo, hi, lo, lo);
    assert n * (Far(lo, hi) * Far(lo, hi) - NearA(lo, hi) * NearB(lo, hi)) >= 0;
  }

  lemma SpreadStep(k: nat, lo: int, hi: int)
    ensures Spread(k + 1, lo, hi) == Spread(k, lo, hi) + Far(lo, hi) * Far(lo, hi) - NearA(lo, hi) * NearB(lo, hi)
  {
    var w := Far(lo, hi) * Far(lo, hi) - NearA(lo, hi) * NearB(lo, hi);
    assert (k + 1) * w == k * w + w;
  }

  /** Moving one entry by one changes the noise by no more than the largest entry. */
  lemma {:induction false} FormStep(x: seq<int>, y: seq<int>, i: nat, d: int, n: nat, k: nat, step: int)
    requires |x| == 4 * n + 1 && k <= n && i < |x| && (d == 1 || d == -1) && y == x[i := x[i] + d]
    requires step >= 1 && InBox(x, -step, step)
    ensures -step <= Form(y, n, k) - Form(x, n, k) <= step
  {
    if k > 0 {
      if i == k - 1 || i == n + k - 1 || i == 2 * n + k - 1 || i == 3 * n + k - 1 {
        FormSame(x, y, i, n, k - 1, k);
        TermStep(x, y, i, d, n, k - 1, step);
      } else {
        FormStep(x, y, i, d, n, k - 1, step);
      }
    }
  }

  lemma TermStep(x: seq<int>, y: seq<int>, i: nat, d: int, n: nat, j: nat, step: int)
    requires |x| == 4 * n + 1 && j < n && (d == 1 || d == -1) && InBox(x, -step, step)
    requires i == j || i == n + j || i == 2 * n + j || i == 3 * n + j
    requires y == x[i := x[i] + d]
    ensures -step <= y[j] * y[n + j] - y[2 * n + j] * y[3 * n + j]
                     - (x[j] * x[n + j] - x[2 * n + j] * x[3 * n + j]) <= step
  {
    if i == j || i == n + j {
      ProductStep(x[j], x[n + j], d);
    } else {
      ProductStep(x[2 * n + j], x[3 * n + j], d);
    }
  }

  lemma ProductStep(a: int, b: int, d: int)
    requires d == 1 || d == -1
    ensures (a + d) * b - a * b == (if d == 1 then b else -b)
    ensures a * (b + d) - a * b == (if d == 1 then a else -a)
  {
  }

  lemma {:induction false} FormSame(x: seq<int>, y: seq<int>, i: nat, n: nat, k: nat, at: nat)
    requires |x| == |y| == 4 * n + 1 && k < at <= n
    requires i == at - 1 || i == n + at - 1 || i == 2 * n + at - 1 || i == 3 * n + at - 1
    requires forall j :: 0 <= j < |x| && j != i ==> x[j] == y[j]
    ensures Form(x, n, k) == Form(y, n, k)
  {
    if k > 0 {
      FormSame(x, y, i, n, k - 1, at);
    }
  }

  function Signed(down: bool, v: int): int {
    if down then v else -v
  }

  /** One unit at entry i from a towards b. */
  lemma StepTowards(a: seq<int>, b: seq<int>, i: nat, n: nat, lo: int, hi: int, step: int) returns (x: seq<int>)
    requires |a| == |b| == 4 * n + 1 && i < |a| && InBox(a, lo, hi) && InBox(b, lo, hi) && a[i] != b[i]
    requires step >= 1 && -step <= lo && hi <= step
    ensures x == a[i := if a[i] < b[i] then a[i] + 1 else a[i] - 1] && InBox(x, lo, hi)
    ensures Form(a, n, n) - step <= Form(x, n, n) <= Form(a, n, n) + step
  {
    var d := if a[i] < b[i] then 1 else -1;
    assert lo <= a[i] <= hi && lo <= b[i] <= hi;
    x := a[i := a[i] + d];
    FormStep(a, x, i, d, n, n, step);
  }

  lemma SameEntries(a: seq<int>, b: seq<int>)
    requires |a| == |b| && forall j :: 0 <= j < |a| ==> a[j] == b[j]
    ensures a == b
  {
  }

  /**
   Walking from a to b one unit at a time, the noise passes the limit t in a step: some sequence of the box is
   past the limit by less than a step, downwards or upwards.
   */
  lemma {:induction false} Walk(a: seq<int>, b: seq<int>, i: nat, n: nat, lo: int, hi: int, step: int,
                              down: bool, t: int)
    returns (x: seq<int>)
    requires |a| == |b| == 4 * n + 1 && i <= |a| && InBox(a, lo, hi) && InBox(b, lo, hi)
    requires forall j :: 0 <= j < i ==> a[j] == b[j]
    requires step >= 1 && -step <= lo && hi <= step
    requires Signed(down, Form(a, n, n)) > t >= Signed(down, Form(b, n, n))
    ensures |x| == 4 * n + 1 && InBox(x, lo, hi)
    ensures Signed(down, Form(x, n, n)) <= t < Signed(down, Form(x, n, n)) + step
    decreases |a| - i, if i == |a| then 0 else if a[i] < b[i] then b[i] - a[i] else a[i] - b[i]
  {
    if i == |a| {
      SameEntries(a, b);
      x := b;
    } else if a[i] == b[i] {
      x := Walk(a, b, i + 1, n, lo, hi, step, down, t);
    } else {
      x := StepTowards(a, b, i, n, lo, hi, step);
      if Signed(down, Form(x, n, n)) > t {
        x := Walk(x, b, i, n, lo, hi, step, down, t);
      }
    }
  }

  /** Five blocks of equal entries. */
  function Blocks(n: nat, e: int, r: int, s: int, e1: int, e2: int): (x: seq<int>)
    ensures |x| == 4 * n + 1
  {
    seq(4 * n + 1, i => if i < n then e else if i < 2 * n then r else if i < 3 * n then s
                        else if i < 4 * n then e1 else e2)
  }

  lemma {:induction false} FormOfBlocks(n: nat, k: nat, e: int, r: int, s: int, e1: int, e2: int)
    requires k <= n
    ensures Form(Blocks(n, e, r, s, e1, e2), n, k) == e2 + k * (e * r - s * e1)
  {
    if k > 0 {
      FormOfBlocks(n, k - 1, e, r, s, e1, e2);
      assert (k - 1) * (e * r - s * e1) + (e * r - s * e1) == k * (e * r - s * e1);
    }
  }

  // ---------------------------------------------------------------------------
  // Runs, and the noise of their entries modulo q
  // ---------------------------------------------------------------------------

  /** Everything one encryption draws at random or is given. */
  datatype Run = Run(A: Matrix, s: Vector, e: Vector, r: Vector, e1: Vector, e2: Vector, bits: Vector)

  ghost predicate DrawnMatrix(A: Matrix, n: nat, q: nat)
    requires q > 0
  {
    exists words: seq<seq<Word>> ::
      |words| == n && (forall i :: 0 <= i < n ==> |words[i]| == n) && A == Residues(words, q)
  }

  /** What the random draws and the message can make of a run. */
  ghost predicate Possible(t: Run, n: nat, q: nat, eta: nat)
    requires q > 0
  {
    && DrawnMatrix(t.A, n, q) && IsBits(t.bits, n)
    && Drawn(t.s, n, eta) && Drawn(t.e, n, eta) && Drawn(t.r, n, eta) && Drawn(t.e1, n, eta) && Drawn(t.e2, n, eta)
  }

  /** The vectors have n entries each. */
  predicate Shaped(t: Run, n: nat) {
    Square(t.A, n) && |t.s| == |t.e| == |t.r| == |t.e1| == |t.e2| == |t.bits| == n
  }

  lemma PossibleIsShaped(t: Run, n: nat, q: nat, eta: nat)
    requires q > 0 && Possible(t, n, q, eta)
    ensures Shaped(t, n)
  {
    DrawnIff(t.s, n, eta);
  }

  /** Decryption of the encryption, composed from what Encrypt and Decrypt compute. */
  function Recovered(t: Run, n: nat, q: nat): Vector
    requires q > 0 && Shaped(t, n)
  {
    var u := MatrixVector(Transposed(t.A, n), t.r, t.e1, q);
    var v := CipherV(MatrixVector(t.A, t.s, t.e, q), t.r, t.e2, Encoded(t.bits, q), q);
    Decoded(t.s, u, v, q)
  }

  lemma RecoveredEntry(t: Run, n: nat, q: nat, i: nat)
    requires q > 0 && Shaped(t, n) && i < n
    ensures Recovered(t, n, q)[i] ==
            DecodeBit(((if t.bits[i] == 1 then q / 2 else 0) + Noise(t.s, t.e, t.r, t.e1, t.e2, n, i)) % q, q)
  {
    ThresholdedValue(t.A, t.s, t.e, t.r, t.e1, t.e2, Encoded(t.bits, q), n, q, i);
  }

  /** The entries that make the noise of entry i, each moved by c. */
  function Laid(t: Run, n: nat, i: nat, c: int): (x: seq<int>)
    requires Shaped(t, n) && i < n
    ensures |x| == 4 * n + 1
  {
    seq(4 * n + 1, k requires 0 <= k < 4 * n + 1 =>
      c + if k < n then t.e[k] else if k < 2 * n then t.r[k - n] else if k < 3 * n then t.s[k - 2 * n]
          else if k < 4 * n then t.e1[k - 3 * n] else t.e2[i])
  }

  /** Moving every entry by a multiple of q leaves the noise alone modulo q. */
  lemma {:induction false} LaidForm(t: Run, n: nat, i: nat, m: int, q: nat, k: nat)
    requires q > 0 && Shaped(t, n) && i < n && k <= n
    ensures Form(Laid(t, n, i, m * q), n, k) % q == (Dot(t.e, t.r, k) + t.e2[i] - Dot(t.s, t.e1, k)) % q
  {
    var x := Laid(t, n, i, m * q);
    if k == 0 {
      CongruentBy(x[4 * n], t.e2[i], m, q);
    } else {
      var j := k - 1;
      LaidForm(t, n, i, m, q, j);
      MovedTerm(Form(x, n, j), Dot(t.e, t.r, j) + t.e2[i] - Dot(t.s, t.e1, j), x[j], t.e[j], x[n + j], t.r[j],
                x[2 * n + j], t.s[j], x[3 * n + j], t.e1[j], m, q,
                Form(x, n, k), Dot(t.e, t.r, k) + t.e2[i] - Dot(t.s, t.e1, k));
    }
  }

  lemma MovedTerm(f: int, f': int, x: int, e: int, y: int, r: int, z: int, s: int, w: int, e1: int, m: int, q: nat,
                  g: int, g': int)
    requires q > 0 && f % q == f' % q
    requires x == m * q + e && y == m * q + r && z == m * q + s && w == m * q + e1
    requires g == f + x * y - z * w && g' == f' + e * r - s * e1
    ensures g % q == g' % q
  {
    MovedProduct(x, e, y, r, m, q);
    MovedProduct(z, s, w, e1, m, q);
    AddCongruent(f, f', x * y, e * r, q);
    AddCongruent(f + x * y, f' + e * r, z * w, s * e1, q);
  }

  lemma MovedProduct(x: int, a: int, y: int, b: int, m: int, q: nat)
    requires q > 0 && x == m * q + a && y == m * q + b
    ensures (x * y) % q == (a * b) % q
  {
    CongruentBy(x, a, m, q);
    CongruentBy(y, b, m, q);
    MulCongruent(x, a, y, b, q);
  }

  /** Entry i comes back right for both bits exactly when its noise is harmless. */
  lemma EntryRight(t: Run, n: nat, q: nat, i: nat, m: int)
    requires q > 0 && Shaped(t, n) && i < n && IsBits(t.bits, n)
    requires Harmless(Form(Laid(t, n, i, m * q), n, n), q)
    ensures Recovered(t, n, q)[i] == t.bits[i]
  {
    LaidForm(t, n, i, m, q, n);
    HarmlessCongruent(Form(Laid(t, n, i, m * q), n, n), Noise(t.s, t.e, t.r, t.e1, t.e2, n, i), q);
    RecoveredEntry(t, n, q, i);
  }

  // ---------------------------------------------------------------------------
  // The exact margin
  // ---------------------------------------------------------------------------

  /** How many times q brings the draws closest to 0: none unless eta reaches q / 2. */
  function Turns(q: nat, eta: nat): nat
    requires q > 0
  {
    QuotientNonNegative(2 * eta + q, 2 * q);
    (2 * eta + q) / (2 * q)
  }

  function Lowest(q: nat, eta: nat): int
    requires q > 0
  {
    Turns(q, eta) * q - eta
  }

  function Highest(q: nat, eta: nat): int
    requires q > 0
  {
    Turns(q, eta) * q + Top(eta)
  }

  /** The extreme values of the noise, over the draws brought closest to 0, are in range. */
  predicate Margin(n: nat, q: nat, eta: nat)
    requires q > 0
  {
    var lo, hi := Lowest(q, eta), Highest(q, eta);
    InRange(lo - Spread(n, lo, hi), q) && InRange(hi + Spread(n, lo, hi), q)
  }

  lemma LaidInBox(t: Run, n: nat, q: nat, eta: nat, i: nat)
    requires q > 0 && Possible(t, n, q, eta) && i < n
    ensures Shaped(t, n) && InBox(Laid(t, n, i, Turns(q, eta) * q), Lowest(q, eta), Highest(q, eta))
  {
    PossibleIsShaped(t, n, q, eta);
    DrawnIff(t.s, n, eta);
    DrawnIff(t.e, n, eta);
    DrawnIff(t.r, n, eta);
    DrawnIff(t.e1, n, eta);
    DrawnIff(t.e2, n, eta);
  }

  /** Within the margin, decryption returns the message bits for every key and all randomness. */
  lemma DecryptionCorrect(t: Run, n: nat, q: nat, eta: nat)
    requires q > 0 && Margin(n, q, eta) && Possible(t, n, q, eta)
    ensures Shaped(t, n) && Recovered(t, n, q) == t.bits
  {
    PossibleIsShaped(t, n, q, eta);
    forall i | 0 <= i < n ensures Recovered(t, n, q)[i] == t.bits[i] {
      var x := Laid(t, n, i, Turns(q, eta) * q);
      LaidInBox(t, n, q, eta, i);
      FormRange(x, n, n, Lowest(q, eta), Highest(q, eta));
      InRangeIsHarmless(Form(x, n, n), q);
      EntryRight(t, n, q, i, Turns(q, eta));
    }
  }

  /**
   Within the margin, from the random bytes on: entry i of what decrypt recovers from an encryption of a message
   is 1 where byte i of the message is not 0, and 0 elsewhere.
   */
  lemma MessageRecovered(n: nat, q: nat, eta: nat, words: seq<seq<Word>>, secret: seq<Byte>, error: seq<Byte>,
                         message: seq<Byte>, rBytes: seq<Byte>, e1Bytes: seq<Byte>, e2Bytes: seq<Byte>)
    requires n > 0 && q > 0 && Margin(n, q, eta)
    requires |words| == n && forall i :: 0 <= i < n ==> |words[i]| == n
    requires |secret| == |error| == |rBytes| == |e1Bytes| == |e2Bytes| == n
    ensures var A, s := Residues(words, q), Centred(secret, eta);
            var b := MatrixVector(A, s, Centred(error, eta), q);
            var (u, v) := Ciphertext(A, b, message, Centred(rBytes, eta), Centred(e1Bytes, eta),
                                     Centred(e2Bytes, eta), q);
            forall i :: 0 <= i < n ==>
              Decoded(s, u, v, q)[i] == if i < |message| && message[i] != 0 then 1 else 0
  {
    var t := Run(Residues(words, q), Centred(secret, eta), Centred(error, eta), Centred(rBytes, eta),
                 Centred(e1Bytes, eta), Centred(e2Bytes, eta), MessageBits(message, n));
    DecryptionCorrect(t, n, q, eta);
  }

  function ZeroMatrix(n: nat): (A: Matrix)
    ensures Square(A, n) && forall i, j :: 0 <= i < n && 0 <= j < n ==> A[i][j] == 0
  {
    seq(n, _ => seq(n, _ => 0))
  }

  /** The run with the entries of x, moved back by c, and every bit alike. */
  function RunOf(x: seq<int>, n: nat, c: int, bit: int): (t: Run)
    requires |x| == 4 * n + 1
    ensures Shaped(t, n)
  {
    Run(ZeroMatrix(n), Cut(x, 2 * n, n, c), Cut(x, 0, n, c), Cut(x, n, n, c), Cut(x, 3 * n, n, c),
        seq(n, _ => x[4 * n] - c), seq(n, _ => bit))
  }

  function Cut(x: seq<int>, from: nat, n: nat, c: int): (v: Vector)
    requires from + n <= |x|
    ensures |v| == n
  {
    seq(n, i requires 0 <= i < n => x[from + i] - c)
  }

  lemma CutDrawn(x: seq<int>, from: nat, n: nat, q: nat, eta: nat)
    requires q > 0 && from + n <= |x| && InBox(x, Lowest(q, eta), Highest(q, eta))
    ensures Drawn(Cut(x, from, n, Turns(q, eta) * q), n, eta)
  {
    DrawnIff(Cut(x, from, n, Turns(q, eta) * q), n, eta);
  }

  lemma ZeroDrawn(n: nat, q: nat)
    requires q > 0
    ensures DrawnMatrix(ZeroMatrix(n), n, q)
  {
    var words: seq<seq<Word>> := seq(n, _ => ZeroWords(n));
    forall i | 0 <= i < n ensures ZeroMatrix(n)[i] == Residues(words, q)[i] {
      assert RowResidues(ZeroWords(n), q) == ZeroMatrix(n)[i];
    }
    assert ZeroMatrix(n) == Residues(words, q);
  }

  function ZeroWords(n: nat): (row: seq<Word>)
    ensures |row| == n && forall j :: 0 <= j < n ==> row[j] == 0
  {
    seq(n, _ => 0)
  }

  lemma RunOfPossible(x: seq<int>, n: nat, q: nat, eta: nat, bit: int, t: Run)
    requires q > 0 && |x| == 4 * n + 1 && InBox(x, Lowest(q, eta), Highest(q, eta)) && (bit == 0 || bit == 1)
    requires t == RunOf(x, n, Turns(q, eta) * q, bit)
    ensures Possible(t, n, q, eta)
  {
    ZeroDrawn(n, q);
    CutDrawn(x, 0, n, q, eta);
    CutDrawn(x, n, n, q, eta);
    CutDrawn(x, 2 * n, n, q, eta);
    CutDrawn(x, 3 * n, n, q, eta);
    DrawnIff(t.e2, n, eta);
  }

  lemma RunOfNoise(x: seq<int>, n: nat, q: nat, m: int, bit: int, t: Run)
    requires n > 0 && q > 0 && |x| == 4 * n + 1 && t == RunOf(x, n, m * q, bit)
    ensures Form(x, n, n) % q == Noise(t.s, t.e, t.r, t.e1, t.e2, n, 0) % q
  {
    assert Laid(t, n, 0, m * q) == x;
    LaidForm(t, n, 0, m, q, n);
  }

  /** Harm in the noise of a sequence of entries is a run that decrypts wrongly. */
  lemma HarmfulRun(x: seq<int>, n: nat, q: nat, eta: nat) returns (t: Run)
    requires n > 0 && q > 0 && |x| == 4 * n + 1 && InBox(x, Lowest(q, eta), Highest(q, eta))
    requires !Harmless(Form(x, n, n), q)
    ensures Possible(t, n, q, eta) && Shaped(t, n) && Recovered(t, n, q) != t.bits
  {
    var bit := if DecodeBit(Form(x, n, n) % q, q) != 0 then 0 else 1;
    t := RunOf(x, n, Turns(q, eta) * q, bit);
    RunOfPossible(x, n, q, eta, bit, t);
    RunOfNoise(x, n, q, Turns(q, eta), bit, t);
    WrongBit(t, n, q, Form(x, n, n), bit);
  }

  lemma WrongBit(t: Run, n: nat, q: nat, noise: int, bit: int)
    requires n > 0 && q > 0 && Shaped(t, n) && t.bits[0] == bit
    requires bit == if DecodeBit(noise % q, q) != 0 then 0 else 1
    requires noise % q == Noise(t.s, t.e, t.r, t.e1, t.e2, n, 0) % q && !Harmless(noise, q)
    ensures Recovered(t, n, q) != t.bits
  {
    RecoveredEntry(t, n, q, 0);
    AddCongruent(q / 2, q / 2, noise, Noise(t.s, t.e, t.r, t.e1, t.e2, n, 0), q);
    assert Recovered(t, n, q)[0] != t.bits[0];
  }

  // ---------------------------------------------------------------------------
  // Outside the margin
  // ---------------------------------------------------------------------------

  ghost predicate DrawsHarmless(q: nat, eta: nat)
    requires q > 0
  {
    forall y :: Drawable(y, eta) ==> Harmless(y, q)
  }

  /** If every draw is harmless noise then, brought closest to 0, every draw is in range. */
  lemma {:induction false} DrawsInRange(x: int, q: nat, eta: nat)
    requires q > 0 && eta > 0 && Drawable(x, eta) && DrawsHarmless(q, eta)
    ensures InRange(Turns(q, eta) * q + x, q)
    decreases x + eta
  {
    var j := HarmlessIsInRange(x, q);
    if x == 0 - eta {
      NearestTurn(q, eta, j);
    } else {
      DrawsInRange(x - 1, q, eta);
      NextInRange(Turns(q, eta), j, x, q);
    }
  }

  lemma NextInRange(m: int, j: int, x: int, q: nat)
    requires q > 0 && InRange(m * q + (x - 1), q) && InRange(x + j * q, q)
    ensures InRange(m * q + x, q)
  {
    assert m * q + (j - m) * q == j * q;
    SameTurn(m * q + (x - 1), j - m, q, x + j * q);
  }

  /** Only the nearest multiple of q brings -eta into range. */
  lemma NearestTurn(q: nat, eta: nat, j: int)
    requires q > 0 && InRange(j * q - eta, q)
    ensures j == Turns(q, eta)
  {
    assert (2 * eta + q) - j * (2 * q) == q - 2 * (j * q - eta);
    DivModUnique(j, 2 * q, (2 * eta + q) - j * (2 * q));
  }

  lemma SameTurn(a: int, d: int, q: nat, b: int)
    requires q > 0 && InRange(a, q) && InRange(b, q) && b == a + 1 + d * q
    ensures d == 0
  {
    if d != 0 {
      MultipleAway(d, q);
    }
  }

  /** The largest entry of a box whose ends are in range. */
  lemma BoxStep(lo: int, hi: int, q: nat) returns (step: int)
    requires q > 0 && lo < hi && InRange(lo, q) && InRange(hi, q)
    ensures step >= 1 && -step <= lo && hi <= step && 4 * step <= q
  {
    step := if -lo > hi then -lo else hi;
  }

  /** Below: some entries of the box make noise that is just too low. */
  lemma LowWitness(n: nat, lo: int, hi: int, q: nat) returns (x: seq<int>)
    requires q > 0 && lo < hi && InRange(lo, q) && InRange(hi, q) && TooLow(lo - Spread(n, lo, hi), q)
    ensures |x| == 4 * n + 1 && InBox(x, lo, hi) && !Harmless(Form(x, n, n), q)
  {
    var step := BoxStep(lo, hi, q);
    var f, a, b := Far(lo, hi), NearA(lo, hi), NearB(lo, hi);
    var start, end := Blocks(n, lo, lo, lo, lo, lo), Blocks(n, a, b, f, f, lo);
    FormOfBlocks(n, n, lo, lo, lo, lo, lo);
    FormOfBlocks(n, n, a, b, f, f, lo);
    Opposite(n, a * b, f * f);
    var t := LowLimit(q);
    x := Walk(start, end, 0, n, lo, hi, step, true, t);
    JustTooLow(Form(x, n, n), step, q);
  }

  lemma HighWitness(n: nat, lo: int, hi: int, q: nat) returns (x: seq<int>)
    requires q > 0 && lo < hi && InRange(lo, q) && InRange(hi, q) && TooHigh(hi + Spread(n, lo, hi), q)
    ensures |x| == 4 * n + 1 && InBox(x, lo, hi) && !Harmless(Form(x, n, n), q)
  {
    var step := BoxStep(lo, hi, q);
    var f, a, b := Far(lo, hi), NearA(lo, hi), NearB(lo, hi);
    var start, end := Blocks(n, hi, hi, hi, hi, hi), Blocks(n, f, f, a, b, hi);
    FormOfBlocks(n, n, hi, hi, hi, hi, hi);
    FormOfBlocks(n, n, f, f, a, b, hi);
    var t := -HighLimit(q);
    x := Walk(start, end, 0, n, lo, hi, step, false, t);
    JustTooHigh(Form(x, n, n), step, q);
  }

  lemma Opposite(n: int, p: int, f: int)
    ensures n * (p - f) == -(n * (f - p))
  {
  }

  /** The greatest noise that is too low, and the least that is too high. */
  function LowLimit(q: nat): (t: int)
    ensures forall v :: TooLow(v, q) <==> v <= t
  {
    (if q % 2 == 1 then 2 - q else 0 - q) / 4
  }

  function HighLimit(q: nat): (t: int)
    ensures forall v :: TooHigh(v, q) <==> v >= t
  {
    if q % 2 == 1 then q / 4 + 1 else (q + 3) / 4
  }

  /** Outside the margin some key, some randomness and some message decrypt to another message. */
  lemma MarginNecessary(n: nat, q: nat, eta: nat) returns (t: Run)
    requires n > 0 && q > 0 && eta > 0 && !Margin(n, q, eta)
    ensures Possible(t, n, q, eta) && Shaped(t, n) && Recovered(t, n, q) != t.bits
  {
    var lo, hi := Lowest(q, eta), Highest(q, eta);
    if !DrawsHarmless(q, eta) {
      var y :| Drawable(y, eta) && !Harmless(y, q);
      var c := Turns(q, eta) * q + y;
      var x := Blocks(n, c, c, c, c, c);
      FormOfBlocks(n, n, c, c, c, c, c);
      CongruentBy(c, y, Turns(q, eta), q);
      HarmlessCongruent(c, y, q);
      t := HarmfulRun(x, n, q, eta);
    } else {
      DrawsInRange(0 - eta, q, eta);
      DrawsInRange(Top(eta), q, eta);
      SpreadNonNegative(n, lo, hi);
      var x;
      if TooLow(lo - Spread(n, lo, hi), q) {
        x := LowWitness(n, lo, hi, q);
      } else {
        x := HighWitness(n, lo, hi, q);
      }
      t := HarmfulRun(x, n, q, eta);
    }
  }

  /** Decryption is right for every key, message and randomness if and only if the margin holds. */
  lemma DecryptionCorrectIff(n: nat, q: nat, eta: nat)
    requires n > 0 && q > 0 && eta > 0
    ensures Margin(n, q, eta) <==>
            forall t :: Possible(t, n, q, eta) ==> Shaped(t, n) && Recovered(t, n, q) == t.bits
  {
    if Margin(n, q, eta) {
      forall t | Possible(t, n, q, eta) ensures Shaped(t, n) && Recovered(t, n, q) == t.bits {
        DecryptionCorrect(t, n, q, eta);
      }
    } else {
      var t := MarginNecessary(n, q, eta);
    }
  }

  lemma WithoutTurns(n: nat, q: nat, eta: nat)
    requires q > 0 && eta <= 127 && Turns(q, eta) == 0
    ensures Lowest(q, eta) == 0 - eta && Highest(q, eta) == eta
    ensures Spread(n, 0 - eta, eta) == 2 * (n * (eta * eta))
  {
    assert (0 - eta) * (0 - eta) == eta * eta && (0 - eta) * eta == -(eta * eta);
    assert n * (eta * eta - -(eta * eta)) == 2 * (n * (eta * eta));
  }

  lemma NoTurns(q: nat, eta: nat)
    requires q > 0 && 2 * eta < q
    ensures Turns(q, eta) == 0
  {
    DivModUnique(0, 2 * q, 2 * eta + q);
  }

  lemma MarginKeepsDraws(n: nat, q: nat, eta: nat)
    requires q > 0 && 0 < eta <= 127 && Margin(n, q, eta)
    ensures Turns(q, eta) == 0
  {
    SpreadNonNegative(n, Lowest(q, eta), Highest(q, eta));
    if Turns(q, eta) != 0 {
      MultipleAway(Turns(q, eta), q);
    }
  }

  /** Up to eta = 127 the margin is the familiar bound on 2 * n products and one entry. */
  lemma MarginOfSmallEta(n: nat, q: nat, eta: nat)
    requires q > 0 && 0 < eta <= 127
    ensures Margin(n, q, eta) <==> 4 * (2 * (n * (eta * eta)) + eta) < if q % 2 == 1 then q - 2 else q
  {
    if Margin(n, q, eta) {
      MarginKeepsDraws(n, q, eta);
    }
    assert n * (eta * eta) >= 0;
    MarginWithoutTurns(n, q, eta, n * (eta * eta));
  }

  lemma MarginWithoutTurns(n: nat, q: nat, eta: nat, p: int)
    requires q > 0 && 0 < eta <= 127 && p == n * (eta * eta) && p >= 0
    requires Margin(n, q, eta) ==> Turns(q, eta) == 0
    ensures Margin(n, q, eta) <==> 4 * (2 * p + eta) < if q % 2 == 1 then q - 2 else q
  {
    if Turns(q, eta) == 0 {
      WithoutTurns(n, q, eta);
      InRangeBothWays(2 * p + eta, q);
      assert Lowest(q, eta) - Spread(n, Lowest(q, eta), Highest(q, eta)) == -(2 * p + eta);
    } else {
      assert 2 * eta >= q by {
        if 2 * eta < q {
          NoTurns(q, eta);
        }
      }
    }
  }

  lemma InRangeBothWays(b: int, q: nat)
    requires b >= 0
    ensures InRange(-b, q) && InRange(b, q) <==> 4 * b < if q % 2 == 1 then q - 2 else q
  {
  }

  /** The default parameters are inside the margin. */
  lemma DefaultsHaveMargin()
    ensures Margin(64, 3329, 2)
  {
    MarginOfSmallEta(64, 3329, 2);
  }
}
