/** The fixed layout in which an RSA private key is persisted: `n d p q dp dq qinv e`. */
module RsaBlob {
  import opened Wrappers
  import opened Bytes
  import opened NumberTheory
  import opened Rsa

  type PrivateKey = Rsa.PrivateKey

  const BLOB_BYTES: nat := 1156

  /** Octets of one prime; the modulus takes twice as many. */
  const HALF: nat := 128

  predicate Fits(k: PrivateKey, half: nat)
  {
    var wide, narrow := Power256(2 * half), Power256(half);
    && k.n < wide && k.d < wide && k.e < U32
    && k.p < narrow && k.q < narrow && k.dp < narrow && k.dq < narrow && k.qinv < narrow
  }

  function Layout(k: PrivateKey, half: nat): (b: seq<Byte>)
    ensures |b| == 9 * half + 4
  {
    ToBE(k.n, 2 * half) + ToBE(k.d, 2 * half) + ToBE(k.p, half) + ToBE(k.q, half)
    + ToBE(k.dp, half) + ToBE(k.dq, half) + ToBE(k.qinv, half) + ToBE(k.e, 4)
  }

  /** The components in the order they are stored, without the value checks. */
  function Fields(b: seq<Byte>, half: nat): PrivateKey
    requires |b| == 9 * half + 4
  {
    PrivateKey(
      FromBE(b[..2 * half]), FromBE(b[9 * half..]), FromBE(b[2 * half..4 * half]),
      FromBE(b[4 * half..5 * half]), FromBE(b[5 * half..6 * half]), FromBE(b[6 * half..7 * half]),
      FromBE(b[7 * half..8 * half]), FromBE(b[8 * half..9 * half]))
  }

  /** The value checks of the parser. */
  predicate Plausible(k: PrivateKey)
  {
    k.e >= 3 && k.e % 2 == 1 && k.n % 2 == 1 && k.p != 0 && k.q != 0
  }

  function ToBlob(k: PrivateKey): (b: seq<Byte>)
    ensures |b| == BLOB_BYTES
  {
    Layout(k, HALF)
  }

  function FromBlob(b: seq<Byte>): (k: Option<PrivateKey>)
    ensures k.Some? ==> Plausible(k.value)
  {
    if |b| != BLOB_BYTES then None
    else
      var k := Fields(b, HALF);
      if Plausible(k) then Some(k) else None
  }

  lemma FieldsOfLayout(k: PrivateKey, half: nat)
    requires Fits(k, half)
    ensures Fields(Layout(k, half), half) == k
  {
    hide ToBE, FromBE, Power256;
    var b := Layout(k, half);
    PowerTable();
    BERoundTrip(k.n, 2 * half);
    BERoundTrip(k.d, 2 * half);
    BERoundTrip(k.p, half);
    BERoundTrip(k.q, half);
    BERoundTrip(k.dp, half);
    BERoundTrip(k.dq, half);
    BERoundTrip(k.qinv, half);
    BERoundTrip(k.e, 4);
    assert b[..2 * half] == ToBE(k.n, 2 * half);
    assert b[2 * half..4 * half] == ToBE(k.d, 2 * half);
    assert b[4 * half..5 * half] == ToBE(k.p, half);
    assert b[5 * half..6 * half] == ToBE(k.q, half);
    assert b[6 * half..7 * half] == ToBE(k.dp, half);
    assert b[7 * half..8 * half] == ToBE(k.dq, half);
    assert b[8 * half..9 * half] == ToBE(k.qinv, half);
    assert b[9 * half..] == ToBE(k.e, 4);
  }

  lemma LayoutOfFields(b: seq<Byte>, half: nat)
    requires |b| == 9 * half + 4
    ensures Layout(Fields(b, half), half) == b
  {
    hide ToBE, FromBE;
    BEInverse(b[..2 * half]);
    BEInverse(b[2 * half..4 * half]);
    BEInverse(b[4 * half..5 * half]);
    BEInverse(b[5 * half..6 * half]);
    BEInverse(b[6 * half..7 * half]);
    BEInverse(b[7 * half..8 * half]);
    BEInverse(b[8 * half..9 * half]);
    BEInverse(b[9 * half..]);
  }

  /** A key that fits comes back from its blob, exactly when it is plausible. */
  lemma BlobRoundTrip(k: PrivateKey)
    requires Fits(k, HALF)
    ensures FromBlob(ToBlob(k)) == if Plausible(k) then Some(k) else None
  {
    hide Layout, Fields, Fits;
    FieldsOfLayout(k, HALF);
  }

  /** Where each component stands in the 1156 octets, big endian. */
  lemma BlobOffsets(k: PrivateKey)
    requires Fits(k, HALF)
    ensures var b := ToBlob(k);
            && FromBE(b[..256]) == k.n && FromBE(b[256..512]) == k.d
            && FromBE(b[512..640]) == k.p && FromBE(b[640..768]) == k.q
            && FromBE(b[768..896]) == k.dp && FromBE(b[896..1024]) == k.dq
            && FromBE(b[1024..1152]) == k.qinv && FromBE(b[1152..]) == k.e
  {
    hide Layout, Fits, FromBE;
    FieldsOfLayout(k, HALF);
  }

  /** A blob that parses is the blob of the parsed key. */
  lemma BlobInverse(b: seq<Byte>)
    requires FromBlob(b).Some?
    ensures ToBlob(FromBlob(b).value) == b
  {
    hide Layout, Fields;
    LayoutOfFields(b, HALF);
  }

  lemma {:induction false} PowerIsWord(n: nat)
    ensures Power256(n) == Word(8 * n)
  {
    if n > 0 {
      PowerIsWord(n - 1);
      PowAdd(2, 8, 8 * (n - 1));
      assert Pow(2, 8) == 256 by { Pow8(); }
    }
  }

  lemma Pow8()
    ensures Pow(2, 8) == 256
  {
    assert Pow(2, 2) == 4;
    assert Pow(2, 4) == 16;
    assert Pow(2, 6) == 64;
  }

  /** Every key the generator makes survives its blob. */
  lemma GeneratedKeySurvives(p: nat, q: nat)
    requires p % 2 == 1 && q % 2 == 1 && TopTwoBits(p, PRIME_BITS) && TopTwoBits(q, PRIME_BITS)
    requires p > 2 && q > 2 && AttemptKey(p, q).Made?
    ensures FromBlob(ToBlob(AttemptKey(p, q).key)) == Some(AttemptKey(p, q).key)
  {
    var k := AttemptKey(p, q).key;
    assert Fits(k, HALF) && Plausible(k) by { GeneratedKeyFits(p, q, PRIME_BITS, HALF); }
    hide AttemptKey, FromBlob, ToBlob, Fits;
    BlobRoundTrip(k);
  }

  /** A key the generator can return. */
  ghost predicate Generated(k: PrivateKey)
  {
    exists p: nat, q: nat :: FromPrimes(p, q, k)
  }

  lemma GeneratedSurvives(k: PrivateKey)
    requires Generated(k)
    ensures FromBlob(ToBlob(k)) == Some(k)
  {
    hide AttemptKey, FromBlob, ToBlob, TopTwoBits;
    var p: nat, q: nat :| FromPrimes(p, q, k);
    GeneratedKeySurvives(p, q);
  }

  lemma MadeKey(p: nat, q: nat)
    requires p > 2 && q > 2 && AttemptKey(p, q).Made?
    ensures var k := AttemptKey(p, q).key;
            && k.n == Wrap(p * q) && k.e == PUBLIC_EXPONENT && k.p == p && k.q == q
            && k.d < Phi(p, q) && k.dp < p && k.dq < q && k.qinv < p
  {
    hide Wrap, Phi, Gcd, Congruent, Coprime, Word;
  }

  lemma Bounds(p: nat, q: nat, bits: nat)
    requires bits >= 2 && p % 2 == 1 && q % 2 == 1 && TopTwoBits(p, bits) && TopTwoBits(q, bits)
    ensures p < Word(bits) && q < Word(bits) && p * q % Word(2 * bits) == p * q < Word(2 * bits)
  {
    ModulusBits(p, q, bits);
    ModSmall(p * q, Word(2 * bits));
  }

  lemma GeneratedKeyFits(p: nat, q: nat, bits: nat, half: nat)
    requires bits == PRIME_BITS == 8 * half
    requires p % 2 == 1 && q % 2 == 1 && TopTwoBits(p, bits) && TopTwoBits(q, bits)
    requires p > 2 && q > 2 && AttemptKey(p, q).Made?
    ensures Fits(AttemptKey(p, q).key, half) && Plausible(AttemptKey(p, q).key)
  {
    hide Power256, Word, AttemptKey, TopTwoBits;
    PowerIsWord(half);
    PowerIsWord(2 * half);
    assert 8 * (2 * half) == 2 * bits;
    MadeKey(p, q);
    Bounds(p, q, bits);
    OddProduct(p, q);
  }
}
