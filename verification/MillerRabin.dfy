/**
 The Miller-Rabin primality test of the RSA key generator.

 The caller's RNG is a stream: `draw(i)` is the integer read from the octets of
 the `i`-th `fill_bytes` call, and every method threads the stream position.
 */
module MillerRabin {
  import opened Wrappers
  import opened NumberTheory

  type Stream = nat -> nat

  const ROUNDS := 12
  const BASE_TRIES := 64
  const WORD_BITS := 1024

  // ----- the decomposition c - 1 == 2^s * d -----------------------------------

  function TrailingZeros(n: nat): (s: nat)
    requires n > 0
  {
    if n % 2 == 1 then 0 else 1 + TrailingZeros(n / 2)
  }

  /** `n` shifted right by its trailing zeros. */
  function OddPart(n: nat): (d: nat)
    requires n > 0
    ensures d % 2 == 1
  {
    if n % 2 == 1 then n else OddPart(n / 2)
  }

  lemma {:induction false} Decomposition(n: nat)
    requires n > 0
    ensures n == Pow(2, TrailingZeros(n)) * OddPart(n)
  {
    if n % 2 == 0 {
      Decomposition(n / 2);
      MulAssoc(2, Pow(2, TrailingZeros(n / 2)), OddPart(n / 2));
    }
  }

  function BitLength(n: nat): nat
  {
    if n == 0 then 0 else 1 + BitLength(n / 2)
  }

  // ----- strong probable primes -------------------------------------------------

  /** `a^(2^r * d) mod c`, the value after `r` squarings. */
  function Squared(a: nat, c: nat, r: nat): (x: nat)
    requires c >= 2
    ensures x < c
  {
    if r == 0 then Pow(a, OddPart(c - 1)) % c
    else Squared(a, c, r - 1) * Squared(a, c, r - 1) % c
  }

  /**
   The textbook condition: the chain starts at one, or meets minus one before its
   last squaring.
   */
  ghost predicate StrongProbable(a: nat, c: nat)
    requires c >= 2
  {
    Squared(a, c, 0) == 1 || exists r: nat :: r < TrailingZeros(c - 1) && Squared(a, c, r) == c - 1
  }

  /** All rounds of the test passed, with these bases. */
  ghost predicate Passed(c: nat, bases: seq<nat>)
    requires c >= 2
  {
    |bases| == ROUNDS && forall i :: 0 <= i < ROUNDS ==> 2 <= bases[i] < c && StrongProbable(bases[i], c)
  }

  lemma {:induction false} SquaredIsPower(a: nat, c: nat, r: nat)
    requires c >= 2
    ensures Pow(2, r) * OddPart(c - 1) >= 0
    ensures Congruent(Squared(a, c, r), Pow(a, Pow(2, r) * OddPart(c - 1)), c)
  {
    var d := OddPart(c - 1);
    PowPositive(2, r);
    MulNonNegative(Pow(2, r), d);
    if r == 0 {
      CongruentMod(Pow(a, d), c);
    } else {
      PowPositive(2, r - 1);
      MulNonNegative(Pow(2, r - 1), d);
      var e := Pow(2, r - 1) * d;
      assert Pow(2, r) * d == e + e by { MulAssoc(2, Pow(2, r - 1), d); }
      var x := Squared(a, c, r - 1);
      SquaredIsPower(a, c, r - 1);
      CongruentMul(x, x, Pow(a, e), Pow(a, e), c);
      PowAdd(a, e, e);
      CongruentMod(x * x, c);
      CongruentTrans(x * x % c, x * x, Pow(a, e + e), c);
    }
  }

  lemma ReducedRootsOfOne(x: nat, p: nat)
    requires IsPrime(p) && x < p && x * x % p == 1
    ensures x == 1 || x == p - 1
  {
    CongruentMod(x * x, p);
    SquareRootsOfOne(x, p);
    ModSmall(x, p);
    ModSmall(1, p);
    ModSmall(p - 1, p);
    if Congruent(x, 1, p) {
      CongruentIff(x, 1, p);
    } else {
      DividesIntro(p, -1 - (p - 1), -1);
      CongruentTrans(x, -1, p - 1, p);
      CongruentIff(x, p - 1, p);
    }
  }

  /** A chain that reaches one starts at one or passes through minus one. */
  lemma {:induction false} ChainToOne(a: nat, p: nat, r: nat) returns (i: nat)
    requires IsPrime(p) && Squared(a, p, r) == 1
    ensures Squared(a, p, 0) == 1 || (i < r && Squared(a, p, i) == p - 1)
  {
    i := 0;
    if r > 0 {
      var x := Squared(a, p, r - 1);
      assert x * x % p == 1;
      ReducedRootsOfOne(x, p);
      if x == 1 {
        i := ChainToOne(a, p, r - 1);
      } else {
        i := r - 1;
      }
    }
  }

  /** Every base below a prime passes: Fermat plus the square roots of one. */
  lemma PrimeIsStrongProbable(a: nat, p: nat)
    requires IsPrime(p) && 1 <= a < p
    ensures StrongProbable(a, p)
  {
    var s := TrailingZeros(p - 1);
    Decomposition(p - 1);
    SquaredIsPower(a, p, s);
    if Divides(p, a) {
      DividesZeroMod(p, a);
      ModSmall(a, p);
      assert false;
    }
    FermatUnit(a, p);
    CongruentTrans(Squared(a, p, s), Pow(a, p - 1), 1, p);
    CongruentIff(Squared(a, p, s), 1, p);
    ModSmall(Squared(a, p, s), p);
    ModSmall(1, p);
    var r := ChainToOne(a, p, s);
  }

  /** A proper divisor of a composite number is a base that always exposes it. */
  lemma DivisorIsWitness(u: nat, c: nat)
    requires 1 < u < c && Divides(u, c)
    ensures !StrongProbable(u, c)
  {
    forall r: nat
      ensures Squared(u, c, r) != 1 && Squared(u, c, r) != c - 1
    {
      DivisorChain(u, c, r);
      MultipleIsNotUnit(u, Squared(u, c, r), c);
    }
  }

  lemma MultipleIsNotUnit(u: nat, x: nat, c: nat)
    requires 1 < u && Divides(u, c) && Divides(u, x)
    ensures x != 1 && x != c - 1
  {
    OneHasNoDivisor(u);
    if x == c - 1 {
      DividesMul(u, x, -1);
      DividesAdd(u, x * -1, c);
      assert false;
    }
  }

  lemma {:induction false} DivisorChain(u: nat, c: nat, r: nat)
    requires 1 < u < c && Divides(u, c)
    ensures Divides(u, Squared(u, c, r))
  {
    if r == 0 {
      var d := OddPart(c - 1);
      DividesIntro(u, Pow(u, d), Pow(u, d - 1));
      RemainderDivides(u, Pow(u, d), c);
    } else {
      DivisorChain(u, c, r - 1);
      var x := Squared(u, c, r - 1);
      DividesMul(u, x, x);
      RemainderDivides(u, x * x, c);
    }
  }

  lemma RemainderDivides(u: nat, x: int, c: nat)
    requires c > 0 && Divides(u, x) && Divides(u, c)
    ensures Divides(u, x % c)
  {
    assert x % c == x + c * -(x / c);
    DividesMul(u, c, -(x / c));
    DividesAdd(u, x, c * -(x / c));
  }

  /** The test is exact: an odd number is prime iff every base passes. */
  lemma StrongProbableCharacterisesPrimes(c: nat)
    requires c >= 3
    ensures IsPrime(c) <==> forall a: nat :: 2 <= a < c ==> StrongProbable(a, c)
  {
    if IsPrime(c) {
      forall a: nat | 2 <= a < c ensures StrongProbable(a, c) { PrimeIsStrongProbable(a, c); }
    } else {
      var u: int :| 1 < u < c && Divides(u, c);
      DivisorIsWitness(u, c);
    }
  }

  // ----- the test itself -----------------------------------------------------------

  /** One round: answers whether base `a` proves the candidate composite. */
  method Exposes(a: nat, c: nat) returns (composite: bool)
    requires c >= 3 && c % 2 == 1
    ensures composite <==> !StrongProbable(a, c)
  {
    var s := TrailingZeros(c - 1);
    var x := Pow(a, OddPart(c - 1)) % c;
    if x == 1 {
      return false;
    }
    if x == c - 1 {
      assert Squared(a, c, 0) == c - 1;
      return false;
    }
    var r := 1;
    while r < s
      invariant 1 <= r <= s
      invariant x == Squared(a, c, r - 1)
      invariant forall i: nat :: i < r ==> Squared(a, c, i) != c - 1
    {
      x := x * x % c;
      assert x == Squared(a, c, r);
      if x == c - 1 {
        return false;
      }
      if x == 1 {
        OneStaysOne(a, c, r);
        return true;
      }
      r := r + 1;
    }
    return true;
  }

  /** Past a one the chain never meets minus one. */
  lemma OneStaysOne(a: nat, c: nat, r: nat)
    requires c >= 3 && Squared(a, c, r) == 1
    ensures forall i: nat :: i >= r ==> Squared(a, c, i) == 1
  {
    forall i: nat | i >= r ensures Squared(a, c, i) == 1 { OneStaysOneAt(a, c, r, i); }
  }

  lemma {:induction false} OneStaysOneAt(a: nat, c: nat, r: nat, i: nat)
    requires c >= 3 && Squared(a, c, r) == 1 && i >= r
    ensures Squared(a, c, i) == 1
  {
    if i > r {
      OneStaysOneAt(a, c, r, i - 1);
      ModSmall(1, c);
    }
  }

  /** A draw with the excess bits of its top octet masked: the draw modulo `2^bits`. */
  function Masked(draw: Stream, at: nat, bits: nat): nat
  {
    PowPositive(2, bits);
    draw(at) % Pow(2, bits)
  }

  /** A base in `[2, candidate)`, or `None` when 64 draws fail. */
  method RandomBase(draw: Stream, at: nat, candidate: nat) returns (base: Option<nat>, next: nat)
    ensures base.Some? ==> 2 <= base.value < candidate
    ensures candidate < 4 ==> base.None?
    ensures at <= next <= at + BASE_TRIES
    ensures var bits := BitLength(candidate);
      3 <= bits <= WORD_BITS ==>
        && (base.Some? ==> next > at && base.value == Masked(draw, next - 1, bits))
        && (base.None? ==> next == at + BASE_TRIES)
        && forall i :: at <= i < next && (base.None? || i < next - 1) ==> !(2 <= Masked(draw, i, bits) < candidate)
  {
    next := at;
    var bits := BitLength(candidate);
    if bits < 3 || bits > WORD_BITS {
      return None, next;
    }
    var tries := 0;
    while tries < BASE_TRIES
      invariant 0 <= tries <= BASE_TRIES && next == at + tries
      invariant forall i :: at <= i < next ==> !(2 <= Masked(draw, i, bits) < candidate)
    {
      tries := tries + 1;
      var a := Masked(draw, next, bits);
      next := next + 1;
      if 2 <= a < candidate {
        SmallBits(candidate);
        return Some(a), next;
      }
    }
    SmallBits(candidate);
    base := None;
  }

  lemma SmallBits(n: nat)
    ensures n < 4 <==> BitLength(n) < 3
  {
    var h := n / 2;
    assert BitLength(h) == if h == 0 then 0 else 1 + BitLength(h / 2);
    assert h / 2 == 0 <==> n < 4;
    assert BitLength(h / 2) == 0 <==> h / 2 == 0;
  }

  /**
   Miller-Rabin over the drawn bases. "Composite" is answered exactly when the
   candidate is even or the last base exposes it; "probably prime" when twelve
   bases passed; `None` when no base could be drawn.
   */
  method IsProbablePrime(candidate: nat, draw: Stream, at: nat)
    returns (answer: Option<bool>, next: nat, ghost bases: seq<nat>)
    ensures forall i :: 0 <= i < |bases| ==> 2 <= bases[i] < candidate
    ensures answer == Some(true) ==>
      candidate % 2 == 1 && candidate >= 5 && Passed(candidate, bases)
    ensures answer == Some(false) ==>
      candidate % 2 == 0 ||
      (candidate >= 5 && |bases| > 0 && !StrongProbable(bases[|bases| - 1], candidate))
    ensures candidate % 2 == 0 ==> answer == Some(false)
    ensures IsPrime(candidate) && candidate != 2 ==> answer != Some(false)
    ensures next >= at
  {
    bases := [];
    next := at;
    if candidate % 2 == 0 {
      // c - 1 (wrapping at zero) is odd: no trailing zeros.
      EvenPrimeIsTwo(candidate);
      return Some(false), next, bases;
    }
    var round := 0;
    while round < ROUNDS
      invariant 0 <= round <= ROUNDS && |bases| == round && next >= at
      invariant forall i :: 0 <= i < round ==> 2 <= bases[i] < candidate
      invariant round > 0 ==> candidate >= 5
      invariant forall i :: 0 <= i < round ==> candidate >= 2 && StrongProbable(bases[i], candidate)
    {
      var base;
      base, next := RandomBase(draw, next, candidate);
      if base.None? {
        return None, next, bases;
      }
      bases := bases + [base.value];
      var composite := Exposes(base.value, candidate);
      if composite {
        if IsPrime(candidate) {
          PrimeIsStrongProbable(base.value, candidate);
          assert false;
        }
        return Some(false), next, bases;
      }
      round := round + 1;
    }
    answer := Some(true);
  }

  lemma EvenPrimeIsTwo(c: nat)
    requires c % 2 == 0
    ensures IsPrime(c) ==> c == 2
  {
    if c > 2 {
      assert c == 2 * (c / 2);
      DividesIntro(2, c, c / 2);
    }
  }
}
