/**
 Elementary number theory under the RSA primitives: powers, congruences,
 primes, Bezout inverses and Fermat's little theorem, all proved here.
 */
module NumberTheory {
  import opened Wrappers

  // ----- powers ------------------------------------------------------------

  function Pow(b: int, e: nat): int
    decreases e
  {
    if e == 0 then 1 else b * Pow(b, e - 1)
  }

  lemma {:induction false} PowAdd(b: int, i: nat, j: nat)
    ensures Pow(b, i + j) == Pow(b, i) * Pow(b, j)
    decreases i
  {
    if i > 0 {
      PowAdd(b, i - 1, j);
      MulAssoc(b, Pow(b, i - 1), Pow(b, j));
    }
  }

  lemma {:induction false} PowMul(b: int, i: nat, j: nat)
    ensures 0 <= i * j
    ensures Pow(b, i * j) == Pow(Pow(b, i), j)
    decreases j
  {
    MulNonNegative(i, j);
    if j > 0 {
      MulNonNegative(i, j - 1);
      PowMul(b, i, j - 1);
      assert i * j == i + i * (j - 1);
      PowAdd(b, i, i * (j - 1));
    }
  }

  lemma {:induction false} PowBase(a: int, b: int, e: nat)
    ensures Pow(a * b, e) == Pow(a, e) * Pow(b, e)
  {
    if e > 0 {
      PowBase(a, b, e - 1);
      var x, y := Pow(a, e - 1), Pow(b, e - 1);
      assert (a * b) * (x * y) == (a * x) * (b * y) by { MulShuffle(a, b, x, y); }
    }
  }

  lemma {:induction false} PowOne(e: nat)
    ensures Pow(1, e) == 1
  {
    if e > 0 { PowOne(e - 1); }
  }

  lemma {:induction false} PowPositive(b: int, e: nat)
    requires b >= 1
    ensures Pow(b, e) >= 1
  {
    if e > 0 {
      PowPositive(b, e - 1);
      MulNonNegative(b - 1, Pow(b, e - 1) - 1);
      assert b * Pow(b, e - 1) == (b - 1) * (Pow(b, e - 1) - 1) + b + Pow(b, e - 1) - 1;
    }
  }

  // ----- linear facts about products ----------------------------------------

  lemma MulAssoc(a: int, b: int, c: int)
    ensures (a * b) * c == a * (b * c)
  {
  }

  lemma MulShuffle(a: int, b: int, x: int, y: int)
    ensures (a * b) * (x * y) == (a * x) * (b * y)
  {
    MulAssoc(a, b, x * y);
    MulAssoc(a, x, b * y);
    assert b * (x * y) == x * (b * y);
  }

  lemma MulNonNegative(a: int, b: int)
    requires a >= 0 && b >= 0
    ensures a * b >= 0
  {
  }

  lemma MulMonotone(k: int, a: int, b: int)
    requires k >= 0 && a <= b
    ensures k * a <= k * b
  {
    MulNonNegative(k, b - a);
    assert k * b - k * a == k * (b - a);
  }

  // ----- divisibility and congruence ----------------------------------------

  ghost predicate Divides(d: int, x: int)
  {
    exists k: int :: x == d * k
  }

  /** `x` and `y` leave the same remainder modulo `m`. */
  ghost predicate Congruent(x: int, y: int, m: int)
  {
    Divides(m, x - y)
  }

  lemma DividesIntro(d: int, x: int, k: int)
    requires x == d * k
    ensures Divides(d, x)
  {
  }

  lemma DividesZeroMod(d: int, x: int)
    requires d > 0
    ensures Divides(d, x) <==> x % d == 0
  {
    assert x == d * (x / d) + x % d;
    if Divides(d, x) {
      var k :| x == d * k;
      UniqueRemainder(d, k, 0, x / d, x % d);
    }
    if x % d == 0 {
      DividesIntro(d, x, x / d);
    }
  }

  /** Euclidean division is unique. */
  lemma UniqueRemainder(d: int, q: int, r: int, q': int, r': int)
    requires d > 0
    requires 0 <= r < d && 0 <= r' < d
    requires d * q + r == d * q' + r'
    ensures q == q' && r == r'
  {
    assert d * (q - q') == r' - r;
    if q - q' >= 1 {
      MulMonotone(d, 1, q - q');
    } else if q - q' <= -1 {
      MulMonotone(d, q - q', -1);
    }
  }

  lemma DividesAdd(d: int, x: int, y: int)
    requires Divides(d, x) && Divides(d, y)
    ensures Divides(d, x + y)
  {
    var i :| x == d * i;
    var j :| y == d * j;
    assert x + y == d * (i + j);
  }

  lemma DividesMul(d: int, x: int, k: int)
    requires Divides(d, x)
    ensures Divides(d, x * k) && Divides(d, k * x)
  {
    var i :| x == d * i;
    MulAssoc(d, i, k);
    assert x * k == d * (i * k);
    assert k * x == x * k;
  }

  lemma CongruentRefl(x: int, m: int)
    ensures Congruent(x, x, m)
  {
    assert x - x == m * 0;
  }

  lemma CongruentSym(x: int, y: int, m: int)
    requires Congruent(x, y, m)
    ensures Congruent(y, x, m)
  {
    DividesMul(m, x - y, -1);
    assert (x - y) * -1 == y - x;
  }

  lemma CongruentTrans(x: int, y: int, z: int, m: int)
    requires Congruent(x, y, m) && Congruent(y, z, m)
    ensures Congruent(x, z, m)
  {
    DividesAdd(m, x - y, y - z);
  }

  lemma CongruentMul(x: int, y: int, x': int, y': int, m: int)
    requires Congruent(x, x', m) && Congruent(y, y', m)
    ensures Congruent(x * y, x' * y', m)
  {
    DividesMul(m, x - x', y);
    DividesMul(m, y - y', x');
    DividesAdd(m, (x - x') * y, x' * (y - y'));
    assert (x - x') * y + x' * (y - y') == x * y - x' * y';
  }

  lemma {:induction false} CongruentPow(x: int, x': int, e: nat, m: int)
    requires Congruent(x, x', m)
    ensures Congruent(Pow(x, e), Pow(x', e), m)
  {
    if e == 0 {
      CongruentRefl(1, m);
    } else {
      CongruentPow(x, x', e - 1, m);
      CongruentMul(x, Pow(x, e - 1), x', Pow(x', e - 1), m);
    }
  }

  lemma CongruentMod(x: int, m: int)
    requires m > 0
    ensures Congruent(x % m, x, m) && Congruent(x, x % m, m)
  {
    assert x == m * (x / m) + x % m;
    assert x % m - x == m * -(x / m);
    assert x - x % m == m * (x / m);
  }

  lemma CongruentIff(x: int, y: int, m: int)
    requires m > 0
    ensures Congruent(x, y, m) <==> x % m == y % m
  {
    assert x == m * (x / m) + x % m;
    assert y == m * (y / m) + y % m;
    if Congruent(x, y, m) {
      var k :| x - y == m * k;
      assert m * (x / m) + x % m == m * (y / m + k) + y % m;
      UniqueRemainder(m, x / m, x % m, y / m + k, y % m);
    }
    if x % m == y % m {
      DividesIntro(m, x - y, x / m - y / m);
    }
  }

  lemma ModSmall(x: int, m: int)
    requires 0 <= x < m
    ensures x % m == x
  {
    assert x == m * (x / m) + x % m;
    assert x == m * 0 + x;
    UniqueRemainder(m, x / m, x % m, 0, x);
  }

  // ----- primes --------------------------------------------------------------

  ghost predicate IsPrime(p: int)
  {
    p >= 2 && forall d: int :: 1 < d < p ==> !Divides(d, p)
  }

  /** Extended Euclid: the common divisor with its two cofactors. */
  function ExtendedGcd(a: nat, b: nat): (r: (nat, int, int))
    requires a > 0 || b > 0
    ensures r.0 > 0 && Divides(r.0, a) && Divides(r.0, b)
    ensures r.0 == a * r.1 + b * r.2
    decreases b
  {
    if b == 0 then
      assert a == a * 1 && b == a * 0;
      (a, 1, 0)
    else
      var rest := ExtendedGcd(b, a % b);
      GcdStep(a, b, rest.0, rest.1, rest.2);
      (rest.0, rest.2, rest.1 - a / b * rest.2)
  }

  lemma GcdStep(a: nat, b: nat, g: nat, x: int, y: int)
    requires b > 0
    requires g > 0 && Divides(g, b) && Divides(g, a % b)
    requires g == b * x + a % b * y
    ensures Divides(g, a)
    ensures g == a * y + b * (x - a / b * y)
  {
    var q, r := a / b, a % b;
    assert a == b * q + r;
    assert a * y == (b * q) * y + r * y;
    MulAssoc(b, q, y);
    assert b * (x - q * y) == b * x - b * (q * y);
    DividesMul(g, b, q);
    DividesAdd(g, b * q, r);
  }

  ghost predicate Coprime(a: int, b: int)
  {
    forall d: int :: d > 1 && Divides(d, a) ==> !Divides(d, b)
  }

  lemma CoprimeCombination(a: nat, b: nat) returns (x: int, y: int)
    requires a > 0 || b > 0
    requires Coprime(a, b)
    ensures a * x + b * y == 1
  {
    var r := ExtendedGcd(a, b);
    assert r.0 <= 1;
    x, y := r.1, r.2;
  }

  /** A combination equal to one forces coprimality. */
  lemma CombinationCoprime(a: int, b: int, x: int, y: int)
    requires a * x + b * y == 1
    ensures Coprime(a, b)
  {
    forall d: int | d > 1 && Divides(d, a)
      ensures !Divides(d, b)
    {
      if Divides(d, b) {
        DividesMul(d, a, x);
        DividesMul(d, b, y);
        DividesAdd(d, a * x, b * y);
        OneHasNoDivisor(d);
      }
    }
  }

  lemma OneHasNoDivisor(d: int)
    requires d > 1
    ensures !Divides(d, 1)
  {
    if Divides(d, 1) {
      DividesZeroMod(d, 1);
      ModSmall(1, d);
      assert false;
    }
  }

  /** A divisor coprime to one factor divides the other (Euclid's lemma). */
  lemma EuclidCoprime(d: nat, a: nat, b: int)
    requires d > 0
    requires Coprime(d, a)
    requires Divides(d, a * b)
    ensures Divides(d, b)
  {
    var x, y := CoprimeCombination(d, a);
    assert b == b * (d * x + a * y);
    assert b * (d * x) == d * (b * x);
    assert b * (a * y) == (a * b) * y;
    DividesIntro(d, d * (b * x), b * x);
    DividesMul(d, a * b, y);
    DividesAdd(d, d * (b * x), (a * b) * y);
    assert b * (d * x + a * y) == b * (d * x) + b * (a * y);
  }

  lemma PrimeCoprime(p: int, a: int)
    requires IsPrime(p)
    requires !Divides(p, a)
    ensures Coprime(p, a)
  {
    forall d: int | d > 1 && Divides(d, p)
      ensures !Divides(d, a)
    {
      if d > p {
        var k :| p == d * k;
        if k <= 0 { MulMonotone(d, k, 0); } else { MulMonotone(d, 1, k); }
        assert false;
      }
      assert d == p;
    }
  }

  lemma PrimeEuclid(p: int, a: int, b: int)
    requires IsPrime(p)
    requires Divides(p, a * b)
    ensures Divides(p, a) || Divides(p, b)
  {
    if !Divides(p, a) {
      // Work with the remainder of `a`, which is a natural number.
      var r := a % p;
      assert a == p * (a / p) + r;
      if Divides(p, r) {
        DividesIntro(p, p * (a / p), a / p);
        DividesAdd(p, p * (a / p), r);
        assert false;
      }
      PrimeCoprime(p, r);
      CongruentMod(a, p);
      CongruentRefl(b, p);
      CongruentMul(r, b, a, b, p);
      DividesAdd(p, r * b - a * b, a * b);
      EuclidCoprime(p, r, b);
    }
  }

  lemma DistinctPrimesCoprime(p: int, q: int)
    requires IsPrime(p) && IsPrime(q) && p != q
    ensures Coprime(p, q)
  {
    if Divides(p, q) {
      var k :| q == p * k;
      if p > q {
        if k <= 0 { MulMonotone(p, k, 0); } else { MulMonotone(p, 1, k); }
      }
      assert false;
    }
    PrimeCoprime(p, q);
  }

  // ----- Fermat's little theorem ---------------------------------------------

  function Choose(n: nat, k: nat): nat
  {
    if k == 0 then 1
    else if n == 0 then 0
    else Choose(n - 1, k - 1) + Choose(n - 1, k)
  }

  /** Absorption: `k * C(n, k) == n * C(n - 1, k - 1)`. */
  lemma {:induction false} ChooseAbsorb(n: nat, k: nat)
    requires n >= 1 && k >= 1
    ensures k * Choose(n, k) == n * Choose(n - 1, k - 1)
    decreases n
  {
    if n == 1 {
      assert Choose(0, k) == 0;
    } else {
      ChooseAbsorb(n - 1, k);
      if k == 1 {
        assert Choose(n - 1, 0) == 1;
      } else {
        ChooseAbsorb(n - 1, k - 1);
        assert Choose(n - 1, k - 1) == Choose(n - 2, k - 2) + Choose(n - 2, k - 1);
        AbsorbAlgebra(n, k, Choose(n - 2, k - 2), Choose(n - 2, k - 1), Choose(n - 1, k));
      }
    }
  }

  lemma AbsorbAlgebra(n: int, k: int, u: int, v: int, w: int)
    requires (k - 1) * (u + v) == (n - 1) * u
    requires k * w == (n - 1) * v
    ensures k * (u + v + w) == n * (u + v)
  {
    assert k * (u + v + w) == (k - 1) * (u + v) + (u + v) + k * w;
    assert n * (u + v) == (n - 1) * u + (n - 1) * v + (u + v);
  }

  lemma {:induction false} ChooseBeyond(n: nat, k: nat)
    requires k > n
    ensures Choose(n, k) == 0
  {
    if n > 0 {
      ChooseBeyond(n - 1, k - 1);
      ChooseBeyond(n - 1, k);
    }
  }

  lemma {:induction false} ChooseSelf(n: nat)
    ensures Choose(n, n) == 1
  {
    if n > 0 {
      ChooseSelf(n - 1);
      ChooseBeyond(n - 1, n);
    }
  }

  /** The sum of `C(n, i) * a^i` for `i` from 0 to `k`. */
  function BinomialSum(a: int, n: nat, k: nat): int
    decreases k
  {
    Choose(n, k) * Pow(a, k) + if k == 0 then 0 else BinomialSum(a, n, k - 1)
  }

  lemma {:induction false} BinomialStep(a: int, n: nat, k: nat)
    ensures BinomialSum(a, n + 1, k + 1) == BinomialSum(a, n, k + 1) + a * BinomialSum(a, n, k)
    decreases k
  {
    var x, y := Choose(n, k), Choose(n, k + 1);
    assert Choose(n + 1, k + 1) == x + y;
    var w := Pow(a, k);
    assert Pow(a, k + 1) == a * w;
    assert (x + y) * (a * w) == y * (a * w) + a * (x * w);
    if k == 0 {
      assert BinomialSum(a, n + 1, 0) == 1;
      assert BinomialSum(a, n, 0) == 1;
      assert x == 1;
    } else {
      BinomialStep(a, n, k - 1);
      var s := BinomialSum(a, n, k - 1);
      assert BinomialSum(a, n, k) == x * w + s;
      assert a * (x * w + s) == a * (x * w) + a * s;
    }
  }

  lemma {:induction false} BinomialTheorem(a: int, n: nat)
    ensures BinomialSum(a, n, n) == Pow(a + 1, n)
  {
    if n > 0 {
      BinomialTheorem(a, n - 1);
      BinomialStep(a, n - 1, n - 1);
      ChooseBeyond(n - 1, n);
      var s := BinomialSum(a, n - 1, n - 1);
      assert (a + 1) * s == a * s + s;
    }
  }

  /** The inner terms of the binomial expansion vanish modulo a prime. */
  lemma {:induction false} BinomialModPrime(a: int, p: nat, k: nat)
    requires IsPrime(p) && k < p
    ensures Congruent(BinomialSum(a, p, k), 1, p)
    decreases k
  {
    if k == 0 {
      CongruentRefl(1, p);
    } else {
      BinomialModPrime(a, p, k - 1);
      ChooseAbsorb(p, k);
      DividesIntro(p, k * Choose(p, k), Choose(p - 1, k - 1));
      PrimeEuclid(p, k, Choose(p, k));
      if Divides(p, k) {
        DividesZeroMod(p, k);
        ModSmall(k, p);
        assert false;
      }
      DividesMul(p, Choose(p, k), Pow(a, k));
      DividesAdd(p, Choose(p, k) * Pow(a, k), BinomialSum(a, p, k - 1) - 1);
    }
  }

  /** Fermat's little theorem: `a^p` is congruent to `a` modulo a prime `p`. */
  lemma {:induction false} FermatNat(a: nat, p: nat)
    requires IsPrime(p)
    ensures Congruent(Pow(a, p), a, p)
    decreases a
  {
    if a == 0 {
      assert Pow(0, p) == 0 * Pow(0, p - 1) == 0;
      CongruentRefl(0, p);
    } else {
      FermatNat(a - 1, p);
      BinomialTheorem(a - 1, p);
      BinomialModPrime(a - 1, p, p - 1);
      ChooseSelf(p);
      assert Pow(a, p) == 1 * Pow(a - 1, p) + BinomialSum(a - 1, p, p - 1);
      DividesAdd(p, Pow(a - 1, p) - (a - 1), BinomialSum(a - 1, p, p - 1) - 1);
    }
  }

  /** The unit form: `a^(p-1)` is congruent to one when `p` does not divide `a`. */
  lemma FermatUnit(a: nat, p: nat)
    requires IsPrime(p) && !Divides(p, a)
    ensures Congruent(Pow(a, p - 1), 1, p)
  {
    FermatNat(a, p);
    assert Pow(a, p) == a * Pow(a, p - 1);
    assert a * (Pow(a, p - 1) - 1) == Pow(a, p) - a;
    PrimeEuclid(p, a, Pow(a, p - 1) - 1);
  }

  /** One modulo a prime has only the trivial square roots. */
  lemma SquareRootsOfOne(x: int, p: nat)
    requires IsPrime(p)
    requires Congruent(x * x, 1, p)
    ensures Congruent(x, 1, p) || Congruent(x, -1, p)
  {
    assert (x - 1) * (x + 1) == x * x - 1;
    PrimeEuclid(p, x - 1, x + 1);
    assert x + 1 == x - -1;
  }

  /** Raising to a multiple of `p - 1` plus one is the identity modulo `p`. */
  lemma PowFermatExponent(a: nat, p: nat, k: nat)
    requires IsPrime(p)
    ensures k * (p - 1) >= 0
    ensures Congruent(Pow(a, k * (p - 1) + 1), a, p)
  {
    MulNonNegative(k, p - 1);
    var e := k * (p - 1);
    PowAdd(a, e, 1);
    assert Pow(a, 1) == a * Pow(a, 0) == a;
    if Divides(p, a) {
      DividesMul(p, a, Pow(a, e) - 1);
      assert (Pow(a, e) - 1) * a == Pow(a, e) * a - a;
    } else {
      FermatUnit(a, p);
      PowMul(a, p - 1, k);
      assert (p - 1) * k == e;
      CongruentPow(Pow(a, p - 1), 1, k, p);
      PowOne(k);
      CongruentRefl(a, p);
      CongruentMul(Pow(a, e), a, 1, a, p);
    }
  }

  /** Congruence modulo two coprime moduli is congruence modulo their product. */
  lemma ChineseRemainderUnique(x: int, y: int, p: nat, q: nat)
    requires p > 0 && q > 0 && Coprime(p, q)
    requires Congruent(x, y, p) && Congruent(x, y, q)
    ensures Congruent(x, y, p * q)
  {
    var k :| x - y == q * k;
    assert Divides(p, q * k);
    EuclidCoprime(p, q, k);
    var i :| k == p * i;
    assert q * (p * i) == (p * q) * i;
    DividesIntro(p * q, x - y, i);
  }

  // ----- modular inverses ------------------------------------------------------

  /** The inverse of `a` modulo `m` exists exactly when they are coprime. */
  ghost predicate IsInverse(a: int, x: int, m: int)
  {
    0 <= x < m && Congruent(a * x, 1, m)
  }

  /** The greatest common divisor, as the big-integer library returns it. */
  function Gcd(a: nat, b: nat): (g: nat)
    requires a > 0 || b > 0
    ensures g == 1 <==> Coprime(a, b)
  {
    var r := ExtendedGcd(a, b);
    if r.0 == 1 then
      CombinationCoprime(a, b, r.1, r.2);
      r.0
    else
      r.0
  }

  /** The modular inverse: defined exactly on the residues coprime to `m`. */
  function InvMod(a: nat, m: nat): (x: Option<nat>)
    requires m > 1
    ensures x.Some? <==> Coprime(a, m)
    ensures x.Some? ==> IsInverse(a, x.value, m)
  {
    var r := ExtendedGcd(a, m);
    if r.0 == 1 then
      CombinationCoprime(a, m, r.1, r.2);
      ReducedInverse(a, m, r.1, r.2);
      Some(r.1 % m)
    else
      None
  }

  lemma ReducedInverse(a: nat, m: nat, u: int, v: int)
    requires m > 1 && a * u + m * v == 1
    ensures IsInverse(a, u % m, m)
  {
    CongruentMod(u, m);
    CongruentRefl(a, m);
    CongruentMul(a, u % m, a, u, m);
    assert a * u - 1 == m * -v;
    DividesIntro(m, a * u - 1, -v);
    CongruentTrans(a * (u % m), a * u, 1, m);
  }

  lemma CoprimeProduct(a: nat, b: nat, c: nat)
    requires a > 0 && b > 0 && c > 0
    requires Coprime(a, b) && Coprime(a, c)
    ensures Coprime(a, b * c)
  {
    var x, y := CoprimeCombination(a, b);
    var u, v := CoprimeCombination(a, c);
    // 1 = (a x + b y)(a u + c v) = a (...) + (b c)(y v)
    var w := x * (a * u + c * v) + b * y * u;
    assert (a * x + b * y) * (a * u + c * v) == 1;
    assert (a * x) * (a * u + c * v) == a * (x * (a * u + c * v));
    assert (b * y) * (a * u) == a * (b * y * u);
    assert (b * y) * (c * v) == (b * c) * (y * v) by { MulShuffle(b, c, y, v); }
    assert (b * y) * (a * u + c * v) == (b * y) * (a * u) + (b * y) * (c * v);
    assert a * w == a * (x * (a * u + c * v)) + a * (b * y * u);
    CombinationCoprime(a, b * c, w, y * v);
  }
}
