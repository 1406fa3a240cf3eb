/**
 The card side of the OpenPGP ECDH decryption (sections 7 and 8 of RFC 6637): the
 key derivation, the imported key material, the session key block and the whole
 flow from an accepted import to the decrypted data. Curve, hashes and block
 cipher are uninterpreted.
 */
module Decipher {
  import opened Wrappers
  import opened Bytes
  import opened StatusWords
  import opened KeyWrap
  import opened Cfb

  const CURVE_OID: seq<Byte> := [0x2A, 0x86, 0x48, 0xCE, 0x3D, 0x03, 0x01, 0x07]
  const ALG_ECDH: Byte := 18
  const HASH_SHA256: Byte := 8
  /** "Anonymous Sender    " */
  const ANONYMOUS: seq<Byte> := [
    0x41, 0x6E, 0x6F, 0x6E, 0x79, 0x6D, 0x6F, 0x75, 0x73, 0x20,
    0x53, 0x65, 0x6E, 0x64, 0x65, 0x72, 0x20, 0x20, 0x20, 0x20
  ]
  const MAX_PARAM := 64
  const KEY_BYTES := 32
  const WRAPPED_MAX := 48
  const MATERIAL_BYTES := 72
  const SLOT_BYTES := 1156
  const OUT_BYTES := 2048

  type Digest32 = b: seq<Byte> | |b| == 32 witness seq(32, i => 0)
  type Sha256 = seq<Byte> -> Digest32

  // ----- key derivation --------------------------------------------------------------

  /** The KDF parameters of section 8 of RFC 6637. */
  function Param(oid: seq<Byte>, alg: Byte, kdfHash: Byte, kekAlg: Byte, fingerprint: seq<Byte>): Option<seq<Byte>>
  {
    if oid == [] || |oid| > 0xFE then None
    else
      var p := [|oid|] + oid + [alg, 0x03, 0x01, kdfHash, kekAlg] + ANONYMOUS + fingerprint;
      if |p| > MAX_PARAM then None else Some(p)
  }

  /** `H(1) || H(2) || ... || H(count)` over the counter, the secret and the parameters. */
  function KdfBlocks(h: Sha256, param: seq<Byte>, zb: seq<Byte>, count: nat): (s: seq<Byte>)
    ensures |s| == 32 * count
  {
    if count == 0 then []
    else KdfBlocks(h, param, zb, count - 1) + h(ToBE(count, 4) + zb + param)
  }

  /** The first `len` octets of that stream (section 7 of RFC 6637). */
  function KdfStream(h: Sha256, param: seq<Byte>, zb: seq<Byte>, len: nat): (s: seq<Byte>)
    ensures |s| == len
  {
    KdfBlocks(h, param, zb, (len + 31) / 32)[..len]
  }

  method Kdf(h: Sha256, param: seq<Byte>, zb: seq<Byte>, outLen: nat) returns (r: Option<seq<Byte>>)
    ensures r == if outLen == 0 || outLen > 64 then None else Some(KdfStream(h, param, zb, outLen))
  {
    hide ToBE;
    if outLen == 0 || outLen > 64 {
      return None;
    }
    var out, counter := [], 1;
    while |out| < outLen
      invariant 1 <= counter && out == KdfBlocks(h, param, zb, counter - 1)
      invariant counter - 1 <= (outLen + 31) / 32
    {
      out := out + h(ToBE(counter, 4) + zb + param);
      counter := counter + 1;
    }
    assert counter - 1 == (outLen + 31) / 32;
    r := Some(out[..outLen]);
  }

  lemma CounterOctets()
    ensures ToBE(1, 4) == [0, 0, 0, 1] && ToBE(2, 4) == [0, 0, 0, 2]
  {
    FourOctets([0, 0, 0, 1]);
    FourOctets([0, 0, 0, 2]);
    BEUnique([0, 0, 0, 1], 1, 4);
    BEUnique([0, 0, 0, 2], 2, 4);
  }

  /** The derived octets are those of at most two hashes, counted from one (section 7 of RFC 6637). */
  lemma KdfIsHashes(h: Sha256, param: seq<Byte>, zb: seq<Byte>, len: nat)
    requires 0 < len <= 64
    ensures KdfStream(h, param, zb, len)
            == (h([0, 0, 0, 1] + zb + param) + h([0, 0, 0, 2] + zb + param))[..len]
  {
    CounterOctets();
    hide ToBE;
    var one: seq<Byte>, two: seq<Byte> := h([0, 0, 0, 1] + zb + param), h([0, 0, 0, 2] + zb + param);
    KdfBlocksAre(h, param, zb);
    hide KdfBlocks;
    if len <= 32 {
      assert one[..len] == (one + two)[..len];
    }
  }

  lemma KdfBlocksAre(h: Sha256, param: seq<Byte>, zb: seq<Byte>)
    ensures KdfBlocks(h, param, zb, 1) == h(ToBE(1, 4) + zb + param)
    ensures KdfBlocks(h, param, zb, 2) == h(ToBE(1, 4) + zb + param) + h(ToBE(2, 4) + zb + param)
  {
    hide ToBE;
    assert KdfBlocks(h, param, zb, 0) == [];
    assert KdfBlocks(h, param, zb, 2) == KdfBlocks(h, param, zb, 1) + h(ToBE(2, 4) + zb + param);
  }

  // ----- the session key block -----------------------------------------------------------

  function KeyLen(alg: Byte): (n: nat)
    ensures n == 0 || n == 16 || n == 24 || n == 32
  {
    if alg == 7 then 16 else if alg == 8 then 24 else if alg == 9 then 32 else 0
  }

  /** The sum of the octets, as a 16-bit wrapping accumulator. */
  function Checksum(key: seq<Byte>): (c: nat)
    ensures c < 0x1_0000
  {
    if key == [] then 0 else (Checksum(key[..|key| - 1]) + key[|key| - 1]) % 0x1_0000
  }

  /** `symm_alg_ID || session key || checksum || PKCS#5 padding` (the sender). */
  function SessionBlock(alg: Byte, key: seq<Byte>): (m: seq<Byte>)
  {
    var m := [alg] + key + [(Checksum(key) / 256), (Checksum(key) % 256)];
    var padding := 8 - |m| % 8;
    m + seq(padding, i => padding)
  }

  /** The session key inside an unwrapped block (the card). */
  function SessionKey(m: seq<Byte>): (k: Option<seq<Byte>>)
  {
    if |m| < 8 then None
    else
      var n := KeyLen(m[0]);
      if n == 0 || |m| < 1 + n + 2 then None
      else
        var key := m[1..1 + n];
        if Checksum(key) == U16Of(m[1 + n], m[2 + n]) then Some(key) else None
  }

  /** A block yields a key exactly when it starts with a well-formed, checked session key. */
  lemma SessionKeyIff(m: seq<Byte>, key: seq<Byte>)
    ensures SessionKey(m) == Some(key) <==>
      && |m| >= 1 + |key| + 2 && KeyLen(m[0]) == |key| > 0 && m[1..1 + |key|] == key
      && U16Of(m[1 + |key|], m[2 + |key|]) == Checksum(key)
  {
  }

  lemma SessionKeyOfBlock(alg: Byte, key: seq<Byte>)
    requires KeyLen(alg) == |key| > 0
    ensures SessionKey(SessionBlock(alg, key)) == Some(key)
    ensures |SessionBlock(alg, key)| == |key| + 8
  {
    var m := SessionBlock(alg, key);
    assert m[1..1 + |key|] == key;
    SessionKeyIff(m, key);
  }

  /** The checksum is the sum of the octets modulo 65536, whatever way they are grouped. */
  lemma {:induction false} ChecksumAdds(a: seq<Byte>, b: seq<Byte>)
    ensures Checksum(a + b) == (Checksum(a) + Checksum(b)) % 0x1_0000
    ensures |b| == 1 ==> Checksum(b) == b[0]
    decreases |b|
  {
    hide Checksum;
    ChecksumStep(b);
    if b == [] {
      assert a + b == a;
    } else {
      var front := b[..|b| - 1];
      ChecksumAdds(a, front);
      ChecksumStep(a + b);
      assert (a + b)[..|a + b| - 1] == a + front;
      ChecksumStep(front);
      SumsModulo(Checksum(a), Checksum(front), b[|b| - 1]);
    }
  }

  lemma ChecksumStep(s: seq<Byte>)
    ensures Checksum(s) == if s == [] then 0 else (Checksum(s[..|s| - 1]) + s[|s| - 1]) % 0x1_0000
  {
  }

  lemma SumsModulo(x: nat, y: nat, z: nat)
    ensures ((x + y) % 0x1_0000 + z) % 0x1_0000 == (x + (y + z) % 0x1_0000) % 0x1_0000
  {
  }

  /** The sender's block, octet by octet: five octets of padding for every key length. */
  lemma SessionBlockIs(alg: Byte, key: seq<Byte>)
    requires (alg == 7 && |key| == 16) || (alg == 8 && |key| == 24) || (alg == 9 && |key| == 32)
    ensures SessionBlock(alg, key)
            == [alg] + key + [Checksum(key) / 256, Checksum(key) % 256] + [5, 5, 5, 5, 5]
  {
    assert seq(5, i => 5) == [5, 5, 5, 5, 5];
  }

  method ComputeChecksum(key: seq<Byte>) returns (sum: nat)
    ensures sum == Checksum(key)
  {
    sum := 0;
    for i := 0 to |key|
      invariant sum == Checksum(key[..i])
    {
      assert key[..i + 1][..i] == key[..i];
      sum := (sum + key[i]) % 0x1_0000;
    }
    assert key[..|key|] == key;
  }

  // ----- the imported material ----------------------------------------------------------------

  const UNSET: Byte := 0
  const ECDSA_P256: Byte := 1
  const ECDH_P256: Byte := 2
  const EDDSA: Byte := 3
  const ECDH_X25519: Byte := 4
  const RSA2048: Byte := 5

  datatype KeySlot = KeySlot(present: bool, len: nat, algo: Byte, material: seq<Byte>)

  predicate SlotOk(s: KeySlot) { |s.material| == SLOT_BYTES && s.len <= SLOT_BYTES }

  /** The decryption slot is an ECDH P-256 slot, explicitly or by default. */
  predicate EcdhSlot(s: KeySlot) { s.present && (s.algo == UNSET || s.algo == ECDH_P256) }

  datatype Material =
    Material(wrapped: seq<Byte>, kdfHash: Byte, kekAlg: Byte, fingerprint: Option<seq<Byte>>)

  predicate MaterialOk(m: Material)
  {
    && 1 <= |m.wrapped| <= WRAPPED_MAX
    && (m.fingerprint.Some? ==> |m.fingerprint.value| == 20)
  }

  /** The 72 octets behind the private key. */
  function Layout(m: Material): (s: seq<Byte>)
    requires MaterialOk(m)
    ensures |s| == 72 && s[0] == |m.wrapped| && s[1..1 + |m.wrapped|] == m.wrapped
    ensures s[49] == m.kdfHash && s[50] == m.kekAlg
    ensures if m.fingerprint.Some? then s[51] == 1 && s[52..] == m.fingerprint.value else s[51] == 0
  {
    [|m.wrapped|] + m.wrapped + Zeros(WRAPPED_MAX - |m.wrapped|) + [m.kdfHash, m.kekAlg]
    + (if m.fingerprint.Some? then [1] + m.fingerprint.value else Zeros(21))
  }

  function Store(m: Material, s: KeySlot): (s': KeySlot)
    requires MaterialOk(m) && SlotOk(s)
    ensures SlotOk(s')
  {
    var raw := s.material[..KEY_BYTES] + Layout(m) + s.material[KEY_BYTES + MATERIAL_BYTES..];
    s.(material := raw, len := KEY_BYTES + MATERIAL_BYTES)
  }

  function FromSlot(s: KeySlot): (m: Option<Material>)
    requires SlotOk(s)
    ensures m.Some? ==> MaterialOk(m.value)
  {
    if s.len < KEY_BYTES + MATERIAL_BYTES then None
    else
      var raw := s.material[KEY_BYTES..KEY_BYTES + MATERIAL_BYTES];
      var n := raw[0];
      if n == 0 || n > WRAPPED_MAX then None
      else
        var flag := raw[3 + WRAPPED_MAX];
        Some(Material(raw[1..1 + n], raw[1 + WRAPPED_MAX], raw[2 + WRAPPED_MAX],
                      if flag == 1 then Some(raw[4 + WRAPPED_MAX..]) else None))
  }

  /** Stored material is read back unchanged, and the private key survives. */
  lemma FromSlotStore(m: Material, s: KeySlot)
    requires MaterialOk(m) && SlotOk(s)
    ensures FromSlot(Store(m, s)) == Some(m)
    ensures Store(m, s).material[..KEY_BYTES] == s.material[..KEY_BYTES]
    ensures Store(m, s).present == s.present && Store(m, s).algo == s.algo
  {
    var raw := Layout(m);
    assert Store(m, s).material[KEY_BYTES..KEY_BYTES + MATERIAL_BYTES] == raw;
    assert raw[1..1 + |m.wrapped|] == m.wrapped;
    if m.fingerprint.Some? {
      assert raw[4 + WRAPPED_MAX..] == m.fingerprint.value;
    }
  }

  /** The body of the import: `len || wrapped || KDF hash || KEK id [|| fingerprint]`. */
  function ImportBody(m: Material): seq<Byte>
    requires MaterialOk(m)
  {
    [|m.wrapped|] + m.wrapped + [m.kdfHash, m.kekAlg]
    + (if m.fingerprint.Some? then m.fingerprint.value else [])
  }

  /** Material the decipher can consume. */
  predicate Importable(m: Material)
  {
    && MaterialOk(m)
    && 24 <= |m.wrapped| && |m.wrapped| % 8 == 0
    && m.kdfHash == HASH_SHA256 && KeyLen(m.kekAlg) > 0
  }

  function ParseImport(value: seq<Byte>): (m: Option<Material>)
    ensures m.Some? ==> Importable(m.value)
  {
    if |value| < 4 then None
    else
      var n := value[0];
      var base := 1 + n + 2;
      if n < 24 || n > WRAPPED_MAX || n % 8 != 0 || (|value| != base && |value| != base + 20) then None
      else
        var m := Material(value[1..1 + n], value[1 + n], value[2 + n],
                          if |value| == base + 20 then Some(value[base..]) else None);
        if m.kdfHash != HASH_SHA256 || KeyLen(m.kekAlg) == 0 then None else Some(m)
  }

  /** `PUT DATA D2`: the accepted import, or `None` when it is refused. */
  function PutMaterial(s: KeySlot, value: seq<Byte>): (r: Option<KeySlot>)
    requires SlotOk(s)
    ensures r.Some? ==> SlotOk(r.value)
  {
    if !EcdhSlot(s) then None
    else
      match ParseImport(value)
      case None => None
      case Some(m) => Some(Store(m, s))
  }

  /** Import bodies and importable material are in one-to-one correspondence. */
  lemma ParseImportBody(m: Material)
    requires Importable(m)
    ensures ParseImport(ImportBody(m)) == Some(m)
  {
    var v := ImportBody(m);
    assert v[1..1 + |m.wrapped|] == m.wrapped;
    if m.fingerprint.Some? {
      assert v[1 + |m.wrapped| + 2..] == m.fingerprint.value;
    }
  }

  lemma ImportBodyParse(value: seq<Byte>)
    requires ParseImport(value).Some?
    ensures ImportBody(ParseImport(value).value) == value
  {
    var m := ParseImport(value).value;
    var n := value[0];
    assert value == [value[0]] + value[1..1 + n] + [value[1 + n], value[2 + n]] + value[3 + n..];
  }

  // ----- the whole flow ------------------------------------------------------------------------

  /** Key agreement on the curve, and which octet strings are points and scalars. */
  datatype Curve = Curve(
    onCurve: seq<Byte> -> bool,
    goodScalar: seq<Byte> -> bool,
    publicKey: seq<Byte> -> seq<Byte>,
    agree: (seq<Byte>, seq<Byte>) -> Digest32)

  /** Diffie-Hellman: both sides reach the same secret, and public keys are points. */
  ghost predicate Agreement(v: Curve)
  {
    && (forall d, e :: v.goodScalar(d) && v.goodScalar(e) ==> v.agree(d, v.publicKey(e)) == v.agree(e, v.publicKey(d)))
    && (forall d :: v.goodScalar(d) ==> v.onCurve(v.publicKey(d)) && |v.publicKey(d)| == 65)
  }

  datatype Suite = Suite(cipher: Cipher, sha1: Sha1, sha256: Sha256, curve: Curve)

  /** The two data objects of `PSO:DECIPHER`, when present. */
  datatype Command = Command(point: Option<seq<Byte>>, cipher: Option<seq<Byte>>)

  datatype Response = Data(bytes: seq<Byte>) | Status(sw: Sw)

  /** The key encryption key both sides derive. */
  function Kek(x: Suite, m: Material, fingerprint: seq<Byte>, zb: seq<Byte>): (k: Option<seq<Byte>>)
    ensures k.Some? ==> GoodKey(k.value)
  {
    match Param(CURVE_OID, ALG_ECDH, m.kdfHash, m.kekAlg, fingerprint)
    case None => None
    case Some(p) =>
      if KeyLen(m.kekAlg) == 0 then None else Some(KdfStream(x.sha256, p, zb, KeyLen(m.kekAlg)))
  }

  lemma ParamIs(kdfHash: Byte, kekAlg: Byte, fingerprint: seq<Byte>) returns (p: seq<Byte>)
    requires |fingerprint| == 20
    ensures Param(CURVE_OID, ALG_ECDH, kdfHash, kekAlg, fingerprint) == Some(p)
    ensures p == [8, 0x2A, 0x86, 0x48, 0xCE, 0x3D, 0x03, 0x01, 0x07, 18, 3, 1, kdfHash, kekAlg]
                 + [0x41, 0x6E, 0x6F, 0x6E, 0x79, 0x6D, 0x6F, 0x75, 0x73, 0x20,
                    0x53, 0x65, 0x6E, 0x64, 0x65, 0x72, 0x20, 0x20, 0x20, 0x20]
                 + fingerprint
  {
    var head := [8, 0x2A, 0x86, 0x48, 0xCE, 0x3D, 0x03, 0x01, 0x07, 18, 3, 1, kdfHash, kekAlg];
    assert [|CURVE_OID|] + CURVE_OID + [ALG_ECDH, 0x03, 0x01, kdfHash, kekAlg] == head;
    p := head + ANONYMOUS + fingerprint;
  }

  /**
   The key encryption key, octet by octet: a SHA-256 over counter one, the shared secret, the
   length and the identifier of the curve, ECDH, the three KDF parameters, the anonymous
   sender and the fingerprint, cut to the key length of the algorithm.
   */
  lemma KekIsHash(x: Suite, m: Material, fingerprint: seq<Byte>, zb: seq<Byte>, n: nat)
    requires |fingerprint| == 20 && 7 <= m.kekAlg <= 9 && n == 8 * (m.kekAlg - 5)
    ensures Kek(x, m, fingerprint, zb) == Some(x.sha256(
              [0, 0, 0, 1] + zb
              + [8, 0x2A, 0x86, 0x48, 0xCE, 0x3D, 0x03, 0x01, 0x07, 18, 3, 1, m.kdfHash, m.kekAlg]
              + [0x41, 0x6E, 0x6F, 0x6E, 0x79, 0x6D, 0x6F, 0x75, 0x73, 0x20,
                 0x53, 0x65, 0x6E, 0x64, 0x65, 0x72, 0x20, 0x20, 0x20, 0x20]
              + fingerprint)[..n])
  {
    hide Param, KdfStream;
    var p := ParamIs(m.kdfHash, m.kekAlg, fingerprint);
    KdfIsHashes(x.sha256, p, zb, n);
    assert [0, 0, 0, 1] + zb + p == [0, 0, 0, 1] + zb
      + [8, 0x2A, 0x86, 0x48, 0xCE, 0x3D, 0x03, 0x01, 0x07, 18, 3, 1, m.kdfHash, m.kekAlg]
      + [0x41, 0x6E, 0x6F, 0x6E, 0x79, 0x6D, 0x6F, 0x75, 0x73, 0x20,
         0x53, 0x65, 0x6E, 0x64, 0x65, 0x72, 0x20, 0x20, 0x20, 0x20]
      + fingerprint;
    var one: seq<Byte> := x.sha256([0, 0, 0, 1] + zb + p);
    var two: seq<Byte> := x.sha256([0, 0, 0, 2] + zb + p);
    assert (one + two)[..n] == one[..n];
  }

  /** The imported material, when the slot holds a P-256 key it belongs to. */
  function SlotMaterial(s: KeySlot): (m: Option<Material>)
    requires SlotOk(s)
    ensures m.Some? ==> MaterialOk(m.value)
  {
    if EcdhSlot(s) then FromSlot(s) else None
  }

  function DecipherSpec(x: Suite, s: KeySlot, own: Option<seq<Byte>>, cmd: Command): Response
    requires SlotOk(s)
  {
    var scalar := s.material[..KEY_BYTES];
    match SlotMaterial(s)
    case None =>
      // The partial decrypt of the card specification: release the shared secret.
      if cmd.point.None? || !x.curve.onCurve(cmd.point.value) then Status(WRONG_DATA)
      else if !x.curve.goodScalar(scalar) then Status(NO_DIAGNOSIS)
      else Data(x.curve.agree(scalar, cmd.point.value))
    case Some(m) =>
      if cmd.point.None? || |cmd.point.value| != 65 || cmd.cipher.None? || !x.curve.onCurve(cmd.point.value)
      then Status(WRONG_DATA)
      else if !x.curve.goodScalar(scalar) then Status(NO_DIAGNOSIS)
      else
        var zb := x.curve.agree(scalar, cmd.point.value);
        var fingerprint := if m.fingerprint.Some? then m.fingerprint else own;
        if fingerprint.None? then Status(NO_DIAGNOSIS)
        else
          match Kek(x, m, fingerprint.value, zb)
          case None => Status(WRONG_DATA)
          case Some(kek) => Unseal(x, kek, m.wrapped, cmd.cipher.value)
  }

  /** Unwrap the session key, decrypt the packet, check it, and answer. */
  function Unseal(x: Suite, kek: seq<Byte>, wrapped: seq<Byte>, text: seq<Byte>): Response
  {
    match UnwrapSpec(x.cipher, kek, wrapped)
    case None => Status(NO_DIAGNOSIS)
    case Some(block) =>
      match SessionKey(block)
      case None => Status(NO_DIAGNOSIS)
      case Some(key) =>
        match DecryptSpec(x.cipher, x.sha1, key, text)
        case None => Status(NO_DIAGNOSIS)
        case Some(d) =>
          if !d.mdcVerified then Status(WRONG_DATA)
          else if |d.data| > OUT_BYTES then Status(NOT_ENOUGH_MEMORY)
          else Data(d.data)
  }

  /** The flow as the applet runs it, with its loops. */
  method DecipherEcdh(x: Suite, s: KeySlot, own: Option<seq<Byte>>, cmd: Command) returns (r: Response)
    requires SlotOk(s)
    ensures r == DecipherSpec(x, s, own, cmd)
  {
    var scalar := s.material[..KEY_BYTES];
    var material := SlotMaterial(s);
    if material.None? {
      if cmd.point.None? || !x.curve.onCurve(cmd.point.value) { return Status(WRONG_DATA); }
      if !x.curve.goodScalar(scalar) { return Status(NO_DIAGNOSIS); }
      return Data(x.curve.agree(scalar, cmd.point.value));
    }
    var m := material.value;
    if cmd.point.None? || |cmd.point.value| != 65 { return Status(WRONG_DATA); }
    if cmd.cipher.None? { return Status(WRONG_DATA); }
    if !x.curve.onCurve(cmd.point.value) { return Status(WRONG_DATA); }
    if !x.curve.goodScalar(scalar) { return Status(NO_DIAGNOSIS); }
    var zb := x.curve.agree(scalar, cmd.point.value);
    var fingerprint := if m.fingerprint.Some? then m.fingerprint else own;
    if fingerprint.None? { return Status(NO_DIAGNOSIS); }
    var param := Param(CURVE_OID, ALG_ECDH, m.kdfHash, m.kekAlg, fingerprint.value);
    if param.None? || KeyLen(m.kekAlg) == 0 { return Status(WRONG_DATA); }
    var kek := Kdf(x.sha256, param.value, zb, KeyLen(m.kekAlg));
    var block := Unwrap(x.cipher, kek.value, m.wrapped);
    if block.None? { return Status(NO_DIAGNOSIS); }
    var key := SessionKey(block.value);
    if key.None? { return Status(NO_DIAGNOSIS); }
    var decrypted := DecryptAes(x.cipher, x.sha1, key.value, cmd.cipher.value);
    if decrypted.None? { return Status(NO_DIAGNOSIS); }
    if !decrypted.value.mdcVerified { return Status(WRONG_DATA); }
    if |decrypted.value.data| > OUT_BYTES { return Status(NOT_ENOUGH_MEMORY); }
    r := Data(decrypted.value.data);
  }

  /**
   `PSO:DECIPHER`: PW1 verified for it and a key present, then by algorithm. What RSA and
   X25519 slots answer is `other`.
   */
  function PsoSpec(
    x: Suite, verified: bool, s: KeySlot, own: Option<seq<Byte>>, cmd: Command, other: Response): Response
    requires SlotOk(s)
  {
    if !verified || !s.present then Status(SECURITY_STATUS)
    else if EcdhSlot(s) then DecipherSpec(x, s, own, cmd)
    else if s.algo == RSA2048 || s.algo == ECDH_X25519 then other
    else Status(FUNCTION_NOT_SUPPORTED)
  }

  /** Nothing is deciphered without PW1 and a key in the slot. */
  method PsoDecipher(
    x: Suite, verified: bool, s: KeySlot, own: Option<seq<Byte>>, cmd: Command, other: Response) returns (r: Response)
    requires SlotOk(s)
    ensures r == PsoSpec(x, verified, s, own, cmd, other)
    ensures r.Data? ==> verified && s.present
  {
    if !verified || !s.present { return Status(SECURITY_STATUS); }
    if s.algo == RSA2048 { return other; }
    if s.algo == UNSET || s.algo == ECDH_P256 {
      r := DecipherEcdh(x, s, own, cmd);
      return;
    }
    if s.algo == ECDH_X25519 { return other; }
    return Status(FUNCTION_NOT_SUPPORTED);
  }

  /** The sender's message under the key encryption key `kek`. */
  ghost predicate SentUnder(x: Suite, kek: seq<Byte>, wrapped: seq<Byte>, text: seq<Byte>, data: seq<Byte>)
  {
    exists alg: Byte, key: seq<Byte>, prefix: seq<Byte> ::
      && KeyLen(alg) == |key| > 0 && GoodPrefix(prefix)
      && WrapSpec(x.cipher, kek, SessionBlock(alg, key)) == Some(wrapped)
      && text == Encrypt(x.cipher, key, ZERO, Packet(x.sha1, prefix, data))
  }

  /** What the card answers for a well-formed message, by the size of its data. */
  function Expected(data: seq<Byte>): Response
  {
    if |data| + BS + 2 + MDC_PACKET > MAX_DATA then Status(NO_DIAGNOSIS)
    else if |data| > OUT_BYTES then Status(NOT_ENOUGH_MEMORY)
    else Data(data)
  }

  lemma UnsealSent(x: Suite, kek: seq<Byte>, wrapped: seq<Byte>, text: seq<Byte>, data: seq<Byte>)
    requires Permutation(x.cipher) && SentUnder(x, kek, wrapped, text, data)
    ensures Unseal(x, kek, wrapped, text) == Expected(data)
  {
    hide UnwrapSpec, WrapSpec, SessionBlock, SessionKey, Permutation, Encrypt, Decrypt, Packet, Open;
    var alg: Byte, key: seq<Byte>, prefix: seq<Byte> :|
      && KeyLen(alg) == |key| > 0 && GoodPrefix(prefix)
      && WrapSpec(x.cipher, kek, SessionBlock(alg, key)) == Some(wrapped)
      && text == Encrypt(x.cipher, key, ZERO, Packet(x.sha1, prefix, data));
    UnwrapInvertsWrap(x.cipher, kek, SessionBlock(alg, key));
    SessionKeyOfBlock(alg, key);
    DecryptInvertsEncrypt(x.cipher, key, ZERO, Packet(x.sha1, prefix, data));
    OpenPacket(x.sha1, prefix, data);
  }

  /**
   End to end: a message made for the card, imported with `PUT DATA D2` and sent
   with the sender's ephemeral public key, comes out as exactly its data.
   */
  lemma MessageRoundTrip(
    x: Suite, s: KeySlot, own: Option<seq<Byte>>, ephemeral: seq<Byte>, m: Material,
    fingerprint: seq<Byte>, text: seq<Byte>, data: seq<Byte>)
    requires Permutation(x.cipher) && Agreement(x.curve)
    requires SlotOk(s) && EcdhSlot(s) && x.curve.goodScalar(s.material[..KEY_BYTES])
    requires x.curve.goodScalar(ephemeral)
    // The sender's material: its own fingerprint, or the one the card computes.
    requires Importable(m) && |fingerprint| == 20
    requires Some(fingerprint) == if m.fingerprint.Some? then m.fingerprint else own
    requires
      var zb := x.curve.agree(ephemeral, x.curve.publicKey(s.material[..KEY_BYTES]));
      var kek := Kek(x, m, fingerprint, zb);
      kek.Some? && SentUnder(x, kek.value, m.wrapped, text, data)
    ensures PutMaterial(s, ImportBody(m)).Some?
    ensures
      var slot := PutMaterial(s, ImportBody(m)).value;
      var cmd := Command(Some(x.curve.publicKey(ephemeral)), Some(text));
      forall other :: PsoSpec(x, true, slot, own, cmd, other) == Expected(data)
  {
    hide Unseal, SentUnder, Kek, FromSlot, Store, ParseImport, Permutation;
    ParseImportBody(m);
    FromSlotStore(m, s);
    var scalar := s.material[..KEY_BYTES];
    var zb := x.curve.agree(ephemeral, x.curve.publicKey(scalar));
    assert zb == x.curve.agree(scalar, x.curve.publicKey(ephemeral));
    UnsealSent(x, Kek(x, m, fingerprint, zb).value, m.wrapped, text, data);
  }

  /** Every session key the sender wraps fits the import window of the card. */
  lemma SentMaterialIsImportable(
    x: Suite, kek: seq<Byte>, alg: Byte, key: seq<Byte>, kekAlg: Byte, fingerprint: Option<seq<Byte>>)
    requires GoodKey(kek) && KeyLen(alg) == |key| > 0 && KeyLen(kekAlg) > 0
    requires fingerprint.Some? ==> |fingerprint.value| == 20
    ensures WrapSpec(x.cipher, kek, SessionBlock(alg, key)).Some?
    ensures var wrapped := WrapSpec(x.cipher, kek, SessionBlock(alg, key)).value;
            Importable(Material(wrapped, HASH_SHA256, kekAlg, fingerprint))
  {
    hide Step, SessionBlock;
    SessionKeyOfBlock(alg, key);
    var start := Registers(IV, Split(SessionBlock(alg, key)));
    ForwardLength(x.cipher, kek, start, |start.r| * 6);
  }
}
