/**
 The PKCS#1 v1.5 block formats of sections 7.2 and 9.2 of RFC 8017 around the RSA
 primitives: the branch-free unpadding loop, and decryption and signatures end to end.
 */
module RsaPadding {
  import opened Wrappers
  import opened Bytes
  import opened NumberTheory
  import opened Rsa
  import RsaBlob

  /** Octets of a block and of a modulus. */
  const BLOCK: nat := 256
  const MIN_PAD: nat := 8

  const SHA256_PREFIX: seq<Byte> := [
    0x30, 0x31, 0x30, 0x0d, 0x06, 0x09, 0x60, 0x86, 0x48, 0x01, 0x65, 0x03, 0x04, 0x02, 0x01, 0x05,
    0x00, 0x04, 0x20
  ]

  type Digest = d: seq<Byte> | |d| == 32 witness Zeros(32)

  // ----- encryption blocks -------------------------------------------------------------------

  predicate GoodPad(pad: seq<Byte>) { |pad| >= MIN_PAD && forall i :: 0 <= i < |pad| ==> pad[i] != 0 }

  /** `00 02 pad 00 message`. */
  function Type2(pad: seq<Byte>, message: seq<Byte>): seq<Byte> { [0, 2] + pad + [0] + message }

  /** The first zero octet at or after `i`. */
  function FirstZero(em: seq<Byte>, i: nat): (z: Option<nat>)
    requires i <= |em|
    ensures z.Some? ==> i <= z.value < |em| && em[z.value] == 0 && forall j :: i <= j < z.value ==> em[j] != 0
    ensures z.None? ==> forall j :: i <= j < |em| ==> em[j] != 0
    decreases |em| - i
  {
    if i == |em| then None else if em[i] == 0 then Some(i) else FirstZero(em, i + 1)
  }

  function Unpadded(em: seq<Byte>): Option<seq<Byte>>
    requires |em| >= 2
  {
    var z := FirstZero(em, 2);
    if em[0] != 0 || em[1] != 2 || z.None? || z.value < 2 + MIN_PAD then None else Some(em[z.value + 1..])
  }

  /** Exactly the well-formed blocks are accepted, each with its own message. */
  lemma UnpaddedIff(em: seq<Byte>, message: seq<Byte>)
    requires |em| >= 2
    ensures Unpadded(em) == Some(message) <==> exists pad :: GoodPad(pad) && em == Type2(pad, message)
  {
    if Unpadded(em) == Some(message) {
      var z := FirstZero(em, 2).value;
      var pad := em[2..z];
      assert GoodPad(pad) && em == Type2(pad, message);
    }
    if pad :| GoodPad(pad) && em == Type2(pad, message) {
      var z := 2 + |pad|;
      assert em[z] == 0 && forall j :: 2 <= j < z ==> em[j] == pad[j - 2];
      assert FirstZero(em, 2) == Some(z);
      assert em[z + 1..] == message;
    }
  }

  type Bit = b: Byte | b < 2

  function And(a: Bit, b: Bit): Bit { a * b }
  function Not(a: Bit): Bit { 1 - a }
  function Or(a: Bit, b: Bit): Bit { if a + b > 0 then 1 else 0 }

  /** The borrow bit of `x - 1` in 16 bits: set for zero only. */
  function Borrow(x: Byte): (r: Bit)
    ensures r == 1 <==> x == 0
  {
    (x + U16 - 1) % U16 / 256 % 2
  }

  /** Equality of octets without a branch. */
  function CtEq(a: Byte, b: Byte): (r: Bit)
    ensures r == 1 <==> a == b
  {
    XorZero(a, b);
    Borrow(Xor(a, b))
  }

  /** One pass over the whole block, in bits and without an early exit. */
  method UnpadType2(em: seq<Byte>, room: nat) returns (message: Option<seq<Byte>>)
    requires |em| == BLOCK
    ensures message == if Unpadded(em).Some? && |Unpadded(em).value| <= room then Unpadded(em) else None
  {
    hide CtEq;
    var ok: Bit := And(CtEq(em[0], 0), CtEq(em[1], 2));
    ghost var head := ok;
    var separator, found: Bit, i := 0, 0, 2;
    while i < BLOCK
      invariant 2 <= i <= BLOCK
      invariant found == 1 ==> 2 + MIN_PAD <= separator < i && em[separator] == 0
      invariant found == 1 ==> forall j :: 2 + MIN_PAD <= j < separator ==> em[j] != 0
      invariant found == 0 ==> forall j :: 2 + MIN_PAD <= j < i ==> em[j] != 0
      invariant ok == 1 <==> head == 1 && forall j :: 2 <= j < i && j < 2 + MIN_PAD ==> em[j] != 0
    {
      var zero := CtEq(em[i], 0);
      var past: Bit := if i >= 2 + MIN_PAD then 1 else 0;
      ok := And(ok, Not(And(And(zero, Not(found)), Not(past))));
      var take := And(And(zero, Not(found)), past);
      if take == 1 { separator := i; }
      found := Or(found, take);
      i := i + 1;
    }
    ok := And(ok, found);
    if ok != 1 {
      assert Unpadded(em).None?;
      return None;
    }
    assert FirstZero(em, 2) == Some(separator);
    var rest := em[separator + 1..];
    return if |rest| > room then None else Some(rest);
  }

  // ----- decryption end to end ---------------------------------------------------------------

  /** A modulus that uses the top bit of its width. */
  ghost predicate FullModulus(k: PrivateKey) { Word(2 * PRIME_BITS - 1) <= k.n }

  /** Generated keys have one. */
  lemma GeneratedIsFull(k: PrivateKey)
    requires RsaBlob.Generated(k)
    ensures FullModulus(k)
  {
    hide AttemptKey, Word;
    var p: nat, q: nat :| FromPrimes(p, q, k);
    RsaBlob.MadeKey(p, q);
    RsaBlob.Bounds(p, q, PRIME_BITS);
    ModulusBits(p, q, PRIME_BITS);
  }

  lemma {:induction false} LeadingZeroBound(em: seq<Byte>)
    requires |em| > 0 && em[0] == 0
    ensures FromBE(em) < Power256(|em| - 1)
  {
    if |em| > 1 {
      var front := em[..|em| - 1];
      LeadingZeroBound(front);
    } else {
      assert em[..0] == [];
    }
  }

  /** Every block that starts with a zero octet is below a full modulus. */
  lemma BlockBelowModulus(k: PrivateKey, em: seq<Byte>, width: nat)
    requires FullModulus(k) && |em| == width == BLOCK && em[0] == 0
    ensures FromBE(em) < k.n
  {
    LeadingZeroBound(em);
    RsaBlob.PowerIsWord(width - 1);
    WordGrows(8 * (width - 1), 2 * PRIME_BITS - 1);
  }

  lemma {:induction false} WordGrows(a: nat, b: nat)
    requires a <= b
    ensures Word(a) <= Word(b)
    decreases b
  {
    if a < b { WordGrows(a, b - 1); }
  }

  lemma BelowWidth(k: PrivateKey, v: nat, width: nat)
    requires ValidKey(k) && v < k.n && width == BLOCK
    ensures v < Power256(width)
  {
    hide Word;
    RsaBlob.PowerIsWord(width);
  }

  /** The message a ciphertext decrypts to under a blinding factor. */
  function Decrypted(k: PrivateKey, c: nat, r: nat, width: nat): Option<seq<Byte>>
    requires 1 <= r < k.n && width >= 2
  {
    match ApplyPrivate(k, c, r)
    case None => None
    case Some(v) => Unpadded(ToBE(v, width))
  }

  /**
   A ciphertext decrypts to a message exactly when it is the public operation on some
   well-formed block for that message, whatever the blinding.
   */
  lemma DecryptsIffEncrypted(k: PrivateKey, c: nat, r: nat, width: nat, message: seq<Byte>)
    requires ValidKey(k) && FullModulus(k) && c < k.n && 1 <= r < k.n && Coprime(r, k.n) && width == BLOCK
    ensures Decrypted(k, c, r, width) == Some(message) <==>
            exists pad :: GoodPad(pad) && Encrypts(k, Type2(pad, message), width, c)
  {
    hide ApplyPrivate, ValidKey, FullModulus, Unpadded, PublicOp, ToBE, FromBE, GoodPad, Coprime;
    PublicUndoesPrivate(k, c, r);
    var v := ApplyPrivate(k, c, r).value;
    ResultBelow(k, c, r);
    var em := ToBE(v, width);
    BelowWidth(k, v, width);
    BERoundTrip(v, width);
    UnpaddedIff(em, message);
    if Unpadded(em) == Some(message) {
      var pad :| GoodPad(pad) && em == Type2(pad, message);
      assert Encrypts(k, Type2(pad, message), width, c);
    }
    if pad :| GoodPad(pad) && Encrypts(k, Type2(pad, message), width, c) {
      var block := Type2(pad, message);
      BlockBelowModulus(k, block, width);
      PrivateUndoesPublic(k, FromBE(block), r);
      BEInverse(block);
      assert em == block;
    }
  }

  /** `c` is what the host gets for a block. */
  predicate Encrypts(k: PrivateKey, block: seq<Byte>, width: nat, c: nat)
  {
    |block| == width && PublicOp(k.n, k.e, FromBE(block)) == Some(c)
  }

  lemma ResultBelow(k: PrivateKey, c: nat, r: nat)
    requires ValidKey(k) && c < k.n && 1 <= r < k.n && Coprime(r, k.n)
    ensures ApplyPrivate(k, c, r).Some? && ApplyPrivate(k, c, r).value < k.n
  {
    BlindedCrtIsExponentiation(k, c, r);
    hide ApplyPrivate, Coprime;
    PowPositiveBase(c, k.d);
  }

  // ----- signatures end to end ---------------------------------------------------------------

  function Ones(n: nat): (s: seq<Byte>)
    ensures |s| == n
  {
    seq(n, i => 0xFF)
  }

  /** `00 01 FF..FF 00 prefix digest`, filling the block. */
  function Emsa(digest: Digest): (em: seq<Byte>)
    ensures |em| == 256 && em[0] == 0 && em[1] == 1 && em[204] == 0 && em[224..] == digest
    ensures (forall i :: 2 <= i < 204 ==> em[i] == 0xFF) && em[205..224] == SHA256_PREFIX
  {
    [0, 1] + Ones(BLOCK - 3 - |SHA256_PREFIX| - 32) + [0] + SHA256_PREFIX + digest
  }

  lemma EmsaInjective(a: Digest, b: Digest)
    requires Emsa(a) == Emsa(b)
    ensures a == b
  {
    assert Emsa(a)[BLOCK - 32..] == a && Emsa(b)[BLOCK - 32..] == b;
  }

  /** Verification: the public operation on the signature gives back the encoded digest. */
  predicate Verifies(n: nat, e: nat, digest: Digest, signature: nat)
  {
    PublicOp(n, e, signature) == Some(FromBE(Emsa(digest)))
  }

  /** One signature verifies for a digest, the one the private operation makes. */
  lemma VerifiesIffSigned(k: PrivateKey, digest: Digest, signature: nat, r: nat)
    requires ValidKey(k) && FullModulus(k) && 1 <= r < k.n && Coprime(r, k.n)
    ensures Verifies(k.n, k.e, digest, signature) <==> ApplyPrivate(k, FromBE(Emsa(digest)), r) == Some(signature)
  {
    hide ApplyPrivate, ValidKey, FullModulus, Coprime, FromBE, Emsa;
    var em := FromBE(Emsa(digest));
    BlockBelowModulus(k, Emsa(digest), BLOCK);
    PublicUndoesPrivate(k, em, r);
    if Verifies(k.n, k.e, digest, signature) {
      PublicBelow(k.n, k.e, signature);
      PrivateUndoesPublic(k, signature, r);
    }
  }

  lemma PublicBelow(n: nat, e: nat, base: nat)
    requires PublicOp(n, e, base).Some?
    ensures base < n
  {
  }

  /** A signature verifies for no other digest. */
  lemma SignatureBindsDigest(k: PrivateKey, a: Digest, b: Digest, signature: nat)
    requires Verifies(k.n, k.e, a, signature) && Verifies(k.n, k.e, b, signature)
    ensures a == b
  {
    hide FromBE, PublicOp, Emsa;
    BEInverse(Emsa(a));
    BEInverse(Emsa(b));
    EmsaInjective(a, b);
  }
}
