/**
 RSA-2048 over mathematical integers: the blinded CRT private operation, the
 public operation and key generation. Products and sums that the code takes with
 wrapping arithmetic are reduced modulo their width here too, so that "nothing
 wraps" is a theorem and not a modelling choice.
 */
module Rsa {
  import opened Wrappers
  import opened NumberTheory
  import opened MillerRabin

  const PUBLIC_EXPONENT: nat := 65537
  const PRIME_BITS: nat := 1024
  const KEYGEN_ATTEMPTS := 16
  const CANDIDATE_ATTEMPTS := 4096
  const BLIND_TRIES := 64

  type Divisor = x: nat | x > 0 witness 1

  const SMALL_PRIMES: seq<Divisor> := [
    3, 5, 7, 11, 13, 17, 19, 23, 29, 31, 37, 41, 43, 47, 53, 59, 61, 67, 71, 73, 79, 83, 89, 97,
    101, 103, 107, 109, 113, 127, 131, 137, 139, 149, 151, 157, 163, 167, 173, 179, 181, 191, 193,
    197, 199, 211, 223, 227, 229, 233, 239, 241, 251
  ]

  /** Values a `bits`-wide unsigned word can hold. */
  function Word(bits: nat): (w: nat)
    ensures w >= 1
  {
    PowPositive(2, bits);
    Pow(2, bits)
  }

  function Wrap(x: nat): nat { x % Word(2 * PRIME_BITS) }

  datatype PrivateKey =
    PrivateKey(n: nat, e: nat, d: nat, p: nat, q: nat, dp: nat, dq: nat, qinv: nat)

  /** The relations of section 3.2 of RFC 8017 between the key components. */
  ghost predicate ValidKey(k: PrivateKey)
  {
    && IsPrime(k.p) && IsPrime(k.q) && k.p != k.q && k.p % 2 == 1 && k.q % 2 == 1
    && k.n == k.p * k.q && k.n < Word(2 * PRIME_BITS)
    && k.e >= 3 && k.e % 2 == 1
    && Congruent(k.e * k.d, 1, (k.p - 1) * (k.q - 1))
    && k.dp == k.d % (k.p - 1) && k.dq == k.d % (k.q - 1)
    && IsInverse(k.q, k.qinv, k.p)
  }

  // ----- the two operations ------------------------------------------------------

  /** `base^e mod n`; refuses a trivial exponent, an even modulus, a wide base. */
  function PublicOp(n: nat, e: nat, base: nat): (r: Option<nat>)
    ensures r.Some? ==> r.value < n
  {
    if e < 3 || e % 2 == 0 || n % 2 == 0 || base >= n then None
    else Some(Pow(base, e) % n)
  }

  /** The true residue of a difference. */
  function SubMod(a: nat, b: nat, p: nat): (r: nat)
    requires p > 0
    ensures r < p
  {
    (a - b) % p
  }

  /** Garner recombination of the two CRT halves, with the code's wrapping word. */
  function Garner(m1: nat, m2: nat, p: nat, q: nat, qinv: nat): nat
    requires p > 0
  {
    var h := SubMod(m1, m2, p) * qinv % p;
    Wrap(m2 + Wrap(h * q))
  }

  /** The input multiplied by `r^e`. */
  function Blinded(k: PrivateKey, c: nat, r: nat): nat
    requires k.n > 0
  {
    PowPositiveBase(r, k.e);
    c * (Pow(r, k.e) % k.n) % k.n
  }

  /** The blinded CRT private operation, once the blinding factor is drawn. */
  function ApplyPrivate(k: PrivateKey, c: nat, r: nat): (m: Option<nat>)
    requires 1 <= r < k.n
  {
    if k.e < 3 || k.e % 2 == 0 || k.n % 2 == 0 || c >= k.n then None
    else
      var blinded := Blinded(k, c, r);
      if k.p % 2 == 0 || k.q % 2 == 0 then None
      else
        PowPositiveBase(blinded % k.p, k.dp);
        PowPositiveBase(blinded % k.q, k.dq);
        var m1 := Pow(blinded % k.p, k.dp) % k.p;
        var m2 := Pow(blinded % k.q, k.dq) % k.q;
        var blindedResult := Garner(m1, m2, k.p, k.q, k.qinv);
        match InvMod(r, k.n)
        case None => None
        case Some(rInv) => Some(blindedResult * rInv % k.n)
  }

  lemma {:induction false} PowPositiveBase(b: nat, e: nat)
    ensures Pow(b, e) >= 0
  {
    if e > 0 { PowPositiveBase(b, e - 1); MulNonNegative(b, Pow(b, e - 1)); }
  }

  // ----- correctness of the private operation ---------------------------------------

  /** The exponent relation modulo one prime factor. */
  lemma ExponentModFactor(k: PrivateKey) returns (i: nat, j: nat)
    requires ValidKey(k)
    ensures k.e * k.d == i * (k.p - 1) + 1
    ensures k.e * k.d == j * (k.q - 1) + 1
  {
    var phi := (k.p - 1) * (k.q - 1);
    MulMonotone(k.p - 1, 1, k.q - 1);
    var t :| k.e * k.d - 1 == phi * t;
    MulNonNegative(k.e, k.d);
    if t < 0 {
      MulMonotone(phi, t, -1);
      assert false;
    }
    MulNonNegative(k.q - 1, t);
    MulNonNegative(k.p - 1, t);
    i, j := (k.q - 1) * t, (k.p - 1) * t;
    MulAssoc(k.p - 1, k.q - 1, t);
    assert i * (k.p - 1) == (k.p - 1) * i;
    assert phi == (k.q - 1) * (k.p - 1);
    MulAssoc(k.q - 1, k.p - 1, t);
    assert j * (k.q - 1) == (k.q - 1) * j;
  }

  /** Reducing the exponent modulo `p - 1` does not change the power modulo `p`. */
  lemma ReducedExponent(b: nat, d: nat, e: nat, p: nat, i: nat)
    requires IsPrime(p) && p % 2 == 1
    requires e * d == i * (p - 1) + 1
    ensures Congruent(Pow(b, d % (p - 1)), Pow(b, d), p)
  {
    ReducedExponentPositive(d, e, p, i);
    assert d == (p - 1) * (d / (p - 1)) + d % (p - 1);
    SplitExponent(b, d, d / (p - 1), d % (p - 1), p);
  }

  lemma SplitExponent(b: nat, d: nat, t: nat, f: nat, p: nat)
    requires IsPrime(p) && f > 0
    requires d == (p - 1) * t + f
    ensures Congruent(Pow(b, f), Pow(b, d), p)
  {
    if Divides(p, b) {
      MulNonNegative(p - 1, t);
      PowerOfMultiple(b, f, p);
      PowerOfMultiple(b, d, p);
      DividesMul(p, Pow(b, d), -1);
      DividesAdd(p, Pow(b, f), Pow(b, d) * -1);
    } else {
      ReducedUnitExponent(b, t, f, p);
      CongruentSym(Pow(b, d), Pow(b, f), p);
    }
  }

  lemma ReducedUnitExponent(b: nat, t: nat, f: nat, p: nat)
    requires IsPrime(p) && !Divides(p, b)
    ensures (p - 1) * t >= 0
    ensures Congruent(Pow(b, (p - 1) * t + f), Pow(b, f), p)
  {
    MulNonNegative(p - 1, t);
    PowAdd(b, (p - 1) * t, f);
    PowMul(b, p - 1, t);
    FermatUnit(b, p);
    CongruentPow(Pow(b, p - 1), 1, t, p);
    PowOne(t);
    CongruentRefl(Pow(b, f), p);
    CongruentMul(Pow(b, (p - 1) * t), Pow(b, f), 1, Pow(b, f), p);
  }

  lemma PowerOfMultiple(b: nat, e: nat, p: nat)
    requires Divides(p, b) && e > 0
    ensures Divides(p, Pow(b, e))
  {
    DividesMul(p, b, Pow(b, e - 1));
  }

  /** The CRT exponents of a key are never zero. */
  lemma ReducedExponentPositive(d: nat, e: nat, p: nat, i: nat)
    requires p > 2 && e * d == i * (p - 1) + 1
    ensures d % (p - 1) > 0
  {
    if d % (p - 1) == 0 {
      var t := d / (p - 1);
      assert d == (p - 1) * t;
      assert e * ((p - 1) * t) == (p - 1) * (e * t);
      assert i * (p - 1) == (p - 1) * i;
      assert (p - 1) * (e * t - i) == 1;
      DividesIntro(p - 1, 1, e * t - i);
      OneHasNoDivisor(p - 1);
      assert false;
    }
  }

  /** Garner returns the one value below `p * q` with the given residues; nothing wraps. */
  lemma GarnerCorrect(m1: nat, m2: nat, p: nat, q: nat, qinv: nat)
    requires p > 1 && q > 0 && m1 < p && m2 < q
    requires p * q < Word(2 * PRIME_BITS)
    requires IsInverse(q, qinv, p)
    ensures SubMod(m1, m2, p) * qinv % p * q >= 0
    ensures Garner(m1, m2, p, q, qinv) == m2 + SubMod(m1, m2, p) * qinv % p * q
    ensures Garner(m1, m2, p, q, qinv) < p * q
    ensures Congruent(Garner(m1, m2, p, q, qinv), m1, p)
    ensures Congruent(Garner(m1, m2, p, q, qinv), m2, q)
  {
    var diff := SubMod(m1, m2, p);
    var h := diff * qinv % p;
    GarnerRange(m2, h, p, q);
    DividesIntro(q, m2 + h * q - m2, h);
    GarnerResidue(m1, m2, diff, qinv, h, p, q);
  }

  lemma GarnerRange(m2: nat, h: nat, p: nat, q: nat)
    requires h < p && m2 < q && p * q < Word(2 * PRIME_BITS)
    ensures 0 <= h * q <= m2 + h * q < p * q
    ensures Wrap(m2 + Wrap(h * q)) == m2 + h * q
  {
    MulNonNegative(h, q);
    MulMonotone(q, h, p - 1);
    assert q * h == h * q && q * (p - 1) == p * q - q;
    ModSmall(h * q, Word(2 * PRIME_BITS));
    ModSmall(m2 + h * q, Word(2 * PRIME_BITS));
  }

  /** Modulo `p`: `h * q == diff * qinv * q == diff == m1 - m2`. */
  lemma GarnerResidue(m1: nat, m2: nat, diff: nat, qinv: nat, h: nat, p: nat, q: nat)
    requires p > 1 && diff == (m1 - m2) % p && h == diff * qinv % p
    requires IsInverse(q, qinv, p)
    ensures Congruent(m2 + h * q, m1, p)
  {
    CongruentMod(diff * qinv, p);
    CongruentRefl(q, p);
    CongruentMul(h, q, diff * qinv, q, p);
    assert diff * qinv * q == diff * (q * qinv) by { MulAssoc(diff, qinv, q); }
    CongruentRefl(diff, p);
    CongruentMul(diff, q * qinv, diff, 1, p);
    CongruentTrans(h * q, diff * (q * qinv), diff, p);
    CongruentMod(m1 - m2, p);
    CongruentTrans(h * q, diff, m1 - m2, p);
    assert m2 + h * q - m1 == h * q - (m1 - m2);
  }

  /** Section 3 of RFC 8017: `x^(e*d)` is `x` modulo `n`, for every `x`. */
  lemma RsaIdentity(k: PrivateKey, x: nat)
    requires ValidKey(k)
    ensures k.e * k.d >= 0
    ensures Congruent(Pow(x, k.e * k.d), x, k.n)
  {
    MulNonNegative(k.e, k.d);
    var i, j := ExponentModFactor(k);
    PowFermatExponent(x, k.p, i);
    PowFermatExponent(x, k.q, j);
    DistinctPrimesCoprime(k.p, k.q);
    ChineseRemainderUnique(Pow(x, k.e * k.d), x, k.p, k.q);
  }

  /** The two CRT halves recombine to the full power of the blinded input. */
  lemma CrtHalves(k: PrivateKey, b: nat)
    requires ValidKey(k)
    ensures Pow(b % k.p, k.dp) >= 0 && Pow(b % k.q, k.dq) >= 0
    ensures
      var m1, m2 := Pow(b % k.p, k.dp) % k.p, Pow(b % k.q, k.dq) % k.q;
      Congruent(Garner(m1, m2, k.p, k.q, k.qinv), Pow(b, k.d), k.n)
  {
    PowPositiveBase(b % k.p, k.dp);
    PowPositiveBase(b % k.q, k.dq);
    var m1, m2 := Pow(b % k.p, k.dp) % k.p, Pow(b % k.q, k.dq) % k.q;
    var i, j := ExponentModFactor(k);
    CrtHalf(b, k.d, k.e, k.p, i);
    CrtHalf(b, k.d, k.e, k.q, j);
    GarnerCorrect(m1, m2, k.p, k.q, k.qinv);
    var m := Garner(m1, m2, k.p, k.q, k.qinv);
    CongruentTrans(m, m1, Pow(b, k.d), k.p);
    CongruentTrans(m, m2, Pow(b, k.d), k.q);
    DistinctPrimesCoprime(k.p, k.q);
    ChineseRemainderUnique(m, Pow(b, k.d), k.p, k.q);
  }

  lemma CrtHalf(b: nat, d: nat, e: nat, p: nat, i: nat)
    requires IsPrime(p) && p % 2 == 1
    requires e * d == i * (p - 1) + 1
    ensures Congruent(Pow(b % p, d % (p - 1)) % p, Pow(b, d), p)
  {
    var f := d % (p - 1);
    CongruentMod(b, p);
    CongruentPow(b % p, b, f, p);
    CongruentMod(Pow(b % p, f), p);
    CongruentTrans(Pow(b % p, f) % p, Pow(b % p, f), Pow(b, f), p);
    ReducedExponent(b, d, e, p, i);
    CongruentTrans(Pow(b % p, f) % p, Pow(b, f), Pow(b, d), p);
  }

  /** Unblinding removes exactly the factor that blinding introduced. */
  lemma Unblinding(k: PrivateKey, c: nat, r: nat, b: nat, rInv: nat)
    requires ValidKey(k)
    requires Congruent(b, c * Pow(r, k.e), k.n)
    requires IsInverse(r, rInv, k.n)
    ensures Congruent(Pow(b, k.d) * rInv, Pow(c, k.d), k.n)
  {
    var n, cd := k.n, Pow(c, k.d);
    CongruentPow(b, c * Pow(r, k.e), k.d, n);
    PowBase(c, Pow(r, k.e), k.d);
    PowMul(r, k.e, k.d);
    RsaIdentity(k, r);
    CongruentRefl(cd, n);
    CongruentMul(cd, Pow(r, k.e * k.d), cd, r, n);
    CongruentTrans(Pow(b, k.d), cd * Pow(r, k.e * k.d), cd * r, n);
    CongruentRefl(rInv, n);
    CongruentMul(Pow(b, k.d), rInv, cd * r, rInv, n);
    MulAssoc(cd, r, rInv);
    CongruentMul(cd, r * rInv, cd, 1, n);
    CongruentTrans(Pow(b, k.d) * rInv, cd * (r * rInv), cd, n);
  }

  /**
   The blinded CRT operation is plain exponentiation, for every input below the
   modulus and every blinding factor coprime to it.
   */
  lemma BlindedCrtIsExponentiation(k: PrivateKey, c: nat, r: nat)
    requires ValidKey(k) && c < k.n
    requires 1 <= r < k.n && Coprime(r, k.n)
    ensures ApplyPrivate(k, c, r) == Some(Pow(c, k.d) % k.n)
  {
    OddProduct(k.p, k.q);
    var b := Blinded(k, c, r);
    BlindedCongruent(k, c, r);
    CrtHalves(k, b);
    var rInv := InvMod(r, k.n).value;
    Unblinding(k, c, r, b, rInv);
    var m := Garner(Pow(b % k.p, k.dp) % k.p, Pow(b % k.q, k.dq) % k.q, k.p, k.q, k.qinv);
    SubstituteFactor(m, Pow(b, k.d), rInv, Pow(c, k.d), k.n);
  }

  lemma BlindedCongruent(k: PrivateKey, c: nat, r: nat)
    requires k.n > 0
    ensures Congruent(Blinded(k, c, r), c * Pow(r, k.e), k.n)
  {
    PowPositiveBase(r, k.e);
    var x := Pow(r, k.e);
    CongruentMod(x, k.n);
    CongruentRefl(c, k.n);
    CongruentMul(c, x % k.n, c, x, k.n);
    CongruentMod(c * (x % k.n), k.n);
    CongruentTrans(Blinded(k, c, r), c * (x % k.n), c * x, k.n);
  }

  lemma SubstituteFactor(m: int, x: int, f: int, y: int, n: nat)
    requires n > 0 && Congruent(m, x, n) && Congruent(x * f, y, n)
    ensures m * f % n == y % n
  {
    CongruentRefl(f, n);
    CongruentMul(m, f, x, f, n);
    CongruentTrans(m * f, x * f, y, n);
    CongruentIff(m * f, y, n);
  }

  lemma OddProduct(p: nat, q: nat)
    requires p % 2 == 1 && q % 2 == 1
    ensures p * q % 2 == 1
  {
    var i, j := p / 2, q / 2;
    assert p * q == (2 * i + 1) * (2 * j + 1);
    assert (2 * i + 1) * (2 * j + 1) == 2 * (2 * i * j + i + j) + 1;
  }

  /** The public operation undoes the private one: the signature guard never fires. */
  lemma PublicUndoesPrivate(k: PrivateKey, c: nat, r: nat)
    requires ValidKey(k) && c < k.n
    requires 1 <= r < k.n && Coprime(r, k.n)
    ensures ApplyPrivate(k, c, r).Some?
    ensures PublicOp(k.n, k.e, ApplyPrivate(k, c, r).value) == Some(c)
  {
    BlindedCrtIsExponentiation(k, c, r);
    OddProduct(k.p, k.q);
    PowPositiveBase(c, k.d);
    var s := Pow(c, k.d) % k.n;
    CongruentMod(Pow(c, k.d), k.n);
    CongruentPow(s, Pow(c, k.d), k.e, k.n);
    PowMul(c, k.d, k.e);
    assert k.d * k.e == k.e * k.d;
    RsaIdentity(k, c);
    CongruentTrans(Pow(s, k.e), Pow(c, k.e * k.d), c, k.n);
    CongruentIff(Pow(s, k.e), c, k.n);
    ModSmall(c, k.n);
  }

  /** The private operation undoes the public one: decryption inverts encryption. */
  lemma PrivateUndoesPublic(k: PrivateKey, m: nat, r: nat)
    requires ValidKey(k) && m < k.n
    requires 1 <= r < k.n && Coprime(r, k.n)
    ensures PublicOp(k.n, k.e, m).Some?
    ensures ApplyPrivate(k, PublicOp(k.n, k.e, m).value, r) == Some(m)
  {
    OddProduct(k.p, k.q);
    PowPositiveBase(m, k.e);
    var c := Pow(m, k.e) % k.n;
    BlindedCrtIsExponentiation(k, c, r);
    CongruentMod(Pow(m, k.e), k.n);
    CongruentPow(c, Pow(m, k.e), k.d, k.n);
    PowMul(m, k.e, k.d);
    RsaIdentity(k, m);
    CongruentTrans(Pow(c, k.d), Pow(m, k.e * k.d), m, k.n);
    CongruentIff(Pow(c, k.d), m, k.n);
    ModSmall(m, k.n);
  }

  /** A subtraction corrected by at most one modulus, before the final reduction. */
  function SubModOnce(a: nat, b: nat, p: nat): int
  {
    if a >= b then a - b else a - b + p
  }

  /**
   The Garner difference takes `m2` reduced modulo `q`. One corrective addition of
   `p` yields the residue for every pair of halves exactly when `q <= p + 1`.
   */
  lemma OneCorrectionSuffices(p: nat, q: nat)
    requires p > 0
    ensures (forall m1: nat, m2: nat :: m1 < p && m2 < q ==> SubModOnce(m1, m2, p) == SubMod(m1, m2, p))
      <==> q <= p + 1
  {
    if q <= p + 1 {
      forall m1: nat, m2: nat | m1 < p && m2 < q
        ensures SubModOnce(m1, m2, p) == SubMod(m1, m2, p)
      {
        CongruentIff(SubModOnce(m1, m2, p), m1 - m2, p) by { ShiftCongruent(m1, m2, p); }
        ModSmall(SubModOnce(m1, m2, p), p);
      }
    } else {
      assert SubModOnce(0, p + 1, p) == -1;
    }
  }

  lemma ShiftCongruent(m1: nat, m2: nat, p: nat)
    ensures Congruent(SubModOnce(m1, m2, p), m1 - m2, p)
  {
    DividesIntro(p, 0, 0);
    DividesIntro(p, p, 1);
  }

  // ----- key generation ------------------------------------------------------------

  /** A number of exactly `bits` bits whose two highest bits are set. */
  ghost predicate TopTwoBits(x: nat, bits: nat)
    requires bits >= 2
  {
    3 * Word(bits - 2) <= x < Word(bits)
  }

  lemma WordEighth(bits: nat)
    requires bits >= 3
    ensures Word(bits) == 4 * Word(bits - 2) && Word(bits - 2) == 2 * Word(bits - 3)
  {
    assert Word(bits) == 2 * Word(bits - 1) && Word(bits - 1) == 2 * Word(bits - 2);
  }

  /** A top and a lower part of which the lowest bit is set. */
  function Forced(top: nat, low: nat, half: nat): (x: nat)
    requires top == 6 * half && low < 2 * half
    ensures top <= x < top + 2 * half && x % 2 == 1 && x / 2 == 3 * half + low / 2
  {
    top + low + 1 - low % 2
  }

  /** The drawn octets with the top two bits and the lowest bit forced to one. */
  function Shape(raw: nat, bits: nat): (x: nat)
    requires bits >= 3
    ensures TopTwoBits(x, bits) && x % 2 == 1
  {
    WordEighth(bits);
    Forced(3 * Word(bits - 2), raw % Word(bits - 2), Word(bits - 3))
  }

  /** Only the forced bits differ from the draw: the bits between them are the drawn ones. */
  lemma ShapeKeepsDraw(raw: nat, bits: nat)
    requires bits >= 3
    ensures Shape(raw, bits) / 2 == 3 * Word(bits - 3) + raw / 2 % Word(bits - 3)
  {
    var w := Word(bits - 3);
    var h, b := raw / 2, raw % 2;
    var r := h % w;
    WordEighth(bits);
    assert raw == (2 * w) * (h / w) + (2 * r + b) by { assert h == w * (h / w) + r; }
    UniqueRemainder(2 * w, h / w, 2 * r + b, raw / (2 * w), raw % (2 * w));
  }

  /** Two such factors always give a modulus of exactly twice the bits. */
  lemma ModulusBits(p: nat, q: nat, bits: nat)
    requires bits >= 2 && TopTwoBits(p, bits) && TopTwoBits(q, bits)
    ensures Word(2 * bits - 1) <= p * q < Word(2 * bits)
    ensures BitLength(p * q) == 2 * bits
  {
    var w := Word(bits - 2);
    assert Word(bits) == 2 * Word(bits - 1) == 4 * w;
    PowAdd(2, bits - 2, bits - 2);
    assert Word(2 * bits - 4) == w * w;
    assert Word(2 * bits - 1) == 2 * Word(2 * bits - 2) == 4 * Word(2 * bits - 3) == 8 * (w * w);
    ProductRange(p, q, w);
    BitLengthRange(p * q, 2 * bits);
  }

  lemma ProductRange(p: nat, q: nat, w: nat)
    requires w >= 1 && 3 * w <= p < 4 * w && 3 * w <= q < 4 * w
    ensures 8 * (w * w) <= p * q < 16 * (w * w)
  {
    ProductMonotone(3 * w, 3 * w, p, q);
    ProductMonotone(p, q, 4 * w - 1, 4 * w);
    assert (3 * w) * (3 * w) == 9 * (w * w);
    assert (4 * w - 1) * (4 * w) == 16 * (w * w) - 4 * w;
  }

  lemma ProductMonotone(a: nat, b: nat, c: nat, d: nat)
    requires a <= c && b <= d
    ensures a * b <= c * d
  {
    MulMonotone(a, b, d);
    MulMonotone(d, a, c);
  }

  lemma {:induction false} BitLengthRange(x: nat, bits: nat)
    requires bits >= 1 && Word(bits - 1) <= x < Word(bits)
    ensures BitLength(x) == bits
    decreases bits
  {
    if bits > 1 {
      assert Word(bits) == 2 * Word(bits - 1) == 4 * Word(bits - 2);
      BitLengthRange(x / 2, bits - 1);
    } else {
      assert x == 1;
      assert BitLength(0) == 0;
    }
  }

  datatype Attempt = Retry | GiveUp | Made(key: PrivateKey)

  /** The product of the predecessors, in 2048 bits; neither predecessor borrows. */
  function Phi(p: nat, q: nat): (phi: nat)
    requires p > 2 && q > 2
    ensures phi < Word(2 * PRIME_BITS)
  {
    MulNonNegative(p - 1, q - 1);
    Wrap((p - 1) * (q - 1))
  }

  /** The product of the predecessors never wraps. */
  lemma PhiDoesNotWrap(p: nat, q: nat)
    requires p > 2 && q > 2 && TopTwoBits(p, PRIME_BITS) && TopTwoBits(q, PRIME_BITS)
    ensures Phi(p, q) == (p - 1) * (q - 1)
  {
    ModulusBits(p, q, PRIME_BITS);
    hide Word;
    MulNonNegative(p - 1, q - 1);
    MulMonotone(p - 1, q - 1, q);
    MulMonotone(q, p - 1, p);
    ModSmall((p - 1) * (q - 1), Word(2 * PRIME_BITS));
  }

  /** One key from two probable primes, in the order the generator checks it. */
  function AttemptKey(p: nat, q: nat): (a: Attempt)
    requires p > 2 && q > 2
  {
    if p == q then Retry
    else
      var n := Wrap(p * q);
      if BitLength(n) != 2 * PRIME_BITS then Retry
      else if Gcd(PUBLIC_EXPONENT, p - 1) != 1 || Gcd(PUBLIC_EXPONENT, q - 1) != 1 then Retry
      else
        var phi := Phi(p, q);
        if phi <= 1 then GiveUp
        else
          match InvMod(PUBLIC_EXPONENT, phi)
          case None => GiveUp
          case Some(d) =>
            match InvMod(q, p)
            case None => GiveUp
            case Some(qinv) =>
              Made(PrivateKey(n, PUBLIC_EXPONENT, d, p, q, d % (p - 1), d % (q - 1), qinv))
  }

  /**
   Two distinct primes of the right shape make a valid key exactly when the public
   exponent is coprime to both predecessors, and the generator never gives up on them.
   */
  lemma AttemptKeyComplete(p: nat, q: nat)
    requires IsPrime(p) && IsPrime(q) && p != q && p % 2 == 1 && q % 2 == 1
    requires TopTwoBits(p, PRIME_BITS) && TopTwoBits(q, PRIME_BITS)
    ensures AttemptKey(p, q).Made? <==> Coprime(PUBLIC_EXPONENT, p - 1) && Coprime(PUBLIC_EXPONENT, q - 1)
    ensures !AttemptKey(p, q).GiveUp?
    ensures AttemptKey(p, q).Made? ==> ValidKey(AttemptKey(p, q).key)
  {
    ModulusBits(p, q, PRIME_BITS);
    ModSmall(p * q, Word(2 * PRIME_BITS));
    DistinctPrimesCoprime(q, p);
    ExponentInvertible(p, q);
    PhiDoesNotWrap(p, q);
  }

  lemma ExponentInvertible(p: nat, q: nat)
    requires p > 2 && q > 2
    ensures (p - 1) * (q - 1) > 1
    ensures Coprime(PUBLIC_EXPONENT, p - 1) && Coprime(PUBLIC_EXPONENT, q - 1) ==>
      InvMod(PUBLIC_EXPONENT, (p - 1) * (q - 1)).Some?
  {
    MulMonotone(p - 1, 2, q - 1);
    if Coprime(PUBLIC_EXPONENT, p - 1) && Coprime(PUBLIC_EXPONENT, q - 1) {
      CoprimeProduct(PUBLIC_EXPONENT, p - 1, q - 1);
    }
  }

  method TrialDivision(candidate: nat) returns (ok: bool)
    ensures ok <==> forall i :: 0 <= i < |SMALL_PRIMES| ==> candidate % SMALL_PRIMES[i] != 0
  {
    var i := 0;
    while i < |SMALL_PRIMES|
      invariant 0 <= i <= |SMALL_PRIMES|
      invariant forall j :: 0 <= j < i ==> candidate % SMALL_PRIMES[j] != 0
    {
      if candidate % SMALL_PRIMES[i] == 0 {
        return false;
      }
      i := i + 1;
    }
    ok := true;
  }

  /** What the prime search accepts: the shape, trial division, and every Miller-Rabin round. */
  ghost predicate Probable(x: nat)
  {
    && x > 2 && x % 2 == 1 && TopTwoBits(x, PRIME_BITS)
    && (forall i :: 0 <= i < |SMALL_PRIMES| ==> x % SMALL_PRIMES[i] != 0)
    && exists bases: seq<nat> :: Passed(x, bases)
  }

  method GeneratePrime(draw: Stream, at: nat) returns (prime: Option<nat>, next: nat)
    ensures prime.Some? ==> Probable(prime.value)
    ensures prime.Some? ==> exists i :: at <= i < next && prime.value == Shape(draw(i), PRIME_BITS)
    ensures next >= at
  {
    next := at;
    var attempts := 0;
    while attempts < CANDIDATE_ATTEMPTS
      invariant 0 <= attempts <= CANDIDATE_ATTEMPTS && next >= at
    {
      attempts := attempts + 1;
      var candidate := Shape(draw(next), PRIME_BITS);
      ghost var from := next;
      next := next + 1;
      var ok := TrialDivision(candidate);
      if ok {
        var answer;
        ghost var bases;
        answer, next, bases := IsProbablePrime(candidate, draw, next);
        if answer.None? {
          return None, next;
        }
        if answer.value {
          TopTwoBitsLarge(candidate, PRIME_BITS);
          assert Passed(candidate, bases);
          assert candidate == Shape(draw(from), PRIME_BITS);
          return Some(candidate), next;
        }
      }
    }
    prime := None;
  }

  lemma TopTwoBitsLarge(x: nat, bits: nat)
    requires bits >= 2 && TopTwoBits(x, bits)
    ensures x > 2
  {
  }

  /** The key the generator makes of two probable primes. */
  ghost predicate FromPrimes(p: nat, q: nat, k: PrivateKey)
  {
    Probable(p) && Probable(q) && AttemptKey(p, q) == Made(k)
  }

  /** A generated key satisfies every RSA relation whenever its factors are prime. */
  method GenerateKey(draw: Stream, at: nat) returns (key: Option<PrivateKey>, next: nat)
    ensures key.Some? ==> key.value.e == PUBLIC_EXPONENT && key.value.p != key.value.q
    ensures key.Some? ==> BitLength(key.value.n) == 2 * PRIME_BITS
    ensures key.Some? ==> FromPrimes(key.value.p, key.value.q, key.value)
    ensures key.Some? && IsPrime(key.value.p) && IsPrime(key.value.q) ==> ValidKey(key.value)
    ensures next >= at
  {
    next := at;
    var attempts := 0;
    while attempts < KEYGEN_ATTEMPTS
      invariant 0 <= attempts <= KEYGEN_ATTEMPTS && next >= at
    {
      attempts := attempts + 1;
      var p, q;
      p, next := GeneratePrime(draw, next);
      if p.None? { return None, next; }
      q, next := GeneratePrime(draw, next);
      if q.None? { return None, next; }
      var attempt := AttemptKey(p.value, q.value);
      if attempt.GiveUp? { return None, next; }
      if attempt.Made? {
        if IsPrime(p.value) && IsPrime(q.value) {
          AttemptKeyComplete(p.value, q.value);
        }
        return Some(attempt.key), next;
      }
    }
    key := None;
  }

  /** One 2048-bit draw. */
  function Drawn(draw: Stream, at: nat): nat { draw(at) % Word(2 * PRIME_BITS) }

  predicate Blinds(r: nat, n: nat) { 1 <= r < n && Gcd(r, n) == 1 }

  /** The first draw in `[1, n)` coprime to `n`, or `None` when none of 64 is. */
  method RandomCoprime(draw: Stream, at: nat, n: nat) returns (r: Option<nat>, next: nat)
    ensures at < next <= at + BLIND_TRIES
    ensures r.Some? ==> 1 <= r.value < n && Coprime(r.value, n) && r.value == Drawn(draw, next - 1)
    ensures forall i :: at <= i < next && (r.None? || i < next - 1) ==> !Blinds(Drawn(draw, i), n)
    ensures r.None? ==> next == at + BLIND_TRIES
  {
    next := at;
    var tries := 0;
    while tries < BLIND_TRIES
      invariant 0 <= tries <= BLIND_TRIES && next == at + tries
      invariant forall i :: at <= i < next ==> !Blinds(Drawn(draw, i), n)
    {
      tries := tries + 1;
      var candidate := Drawn(draw, next);
      next := next + 1;
      if Blinds(candidate, n) {
        return Some(candidate), next;
      }
    }
    r := None;
  }

  /** Sign the encoded block and check the signature before releasing it. */
  method SignBlock(k: PrivateKey, em: nat, draw: Stream, at: nat) returns (sig: Option<nat>, next: nat)
    ensures sig.Some? ==> PublicOp(k.n, k.e, sig.value) == Some(em)
    ensures ValidKey(k) && em < k.n && sig.Some? ==> sig.value == Pow(em, k.d) % k.n
    ensures ValidKey(k) && em < k.n ==>
      (sig.Some? <==> exists i :: at <= i < at + BLIND_TRIES && Blinds(Drawn(draw, i), k.n))
  {
    var r;
    r, next := RandomCoprime(draw, at, k.n);
    if r.None? { return None, next; }
    assert Blinds(Drawn(draw, next - 1), k.n);
    if ValidKey(k) && em < k.n {
      PublicUndoesPrivate(k, em, r.value);
      BlindedCrtIsExponentiation(k, em, r.value);
    }
    var s := ApplyPrivate(k, em, r.value);
    if s.None? || PublicOp(k.n, k.e, s.value) != Some(em) {
      return None, next;
    }
    sig := s;
  }
}
