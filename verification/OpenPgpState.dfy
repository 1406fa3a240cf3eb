/**
 The persisted OpenPGP state, version 3: two PIN slots, three key slots, the cardholder
 objects, three certificates and the signature counter, all at fixed offsets.
 */
module OpenPgpState {
  import opened Wrappers
  import opened Bytes
  import opened Decipher
  import Pin
  import PgpPins
  import RsaBlob

  const STATE_VERSION: Byte := 3
  const STATE_BYTES: nat := 8192
  const STATE_V3: nat := 7325
  const MAX_NAME: nat := 39
  const MAX_LANGUAGE: nat := 8
  const MAX_URL: nat := 255
  const MAX_CERTIFICATE: nat := 1152
  const KEY_BLOCK: nat := 1160
  const CERTIFICATE_BLOCK: nat := 1154
  const SCALAR_MAX: nat := 48

  datatype State = State(
    pw1: Pin.Slot, pw3: Pin.Slot, keys: seq<KeySlot>,
    name: seq<Byte>, language: seq<Byte>, sex: Byte, url: seq<Byte>,
    certificates: seq<seq<Byte>>, signatures: nat)

  predicate PinOk(s: Pin.Slot) { Pin.SlotOk(s) && s.policy == PgpPins.POLICY }

  predicate StateOk(s: State)
  {
    && PinOk(s.pw1) && PinOk(s.pw3)
    && |s.keys| == 3 && (forall i :: 0 <= i < 3 ==> SlotOk(s.keys[i]))
    && |s.name| <= MAX_NAME && |s.language| <= MAX_LANGUAGE && |s.url| <= MAX_URL
    && |s.certificates| == 3 && (forall i :: 0 <= i < 3 ==> |s.certificates[i]| <= MAX_CERTIFICATE)
    && s.signatures < U32
  }

  // ----- encoding ----------------------------------------------------------------------------

  function KeyBlock(k: KeySlot): (b: seq<Byte>)
    requires SlotOk(k)
    ensures |b| == KEY_BLOCK
  {
    [if k.present then 1 else 0] + ToBE(k.len, 2) + [k.algo] + k.material
  }

  function KeyBlocks(keys: seq<KeySlot>): (b: seq<Byte>)
    requires forall i :: 0 <= i < |keys| ==> SlotOk(keys[i])
    ensures |b| == KEY_BLOCK * |keys|
  {
    if keys == [] then [] else KeyBlocks(keys[..|keys| - 1]) + KeyBlock(keys[|keys| - 1])
  }

  function CertificateBlock(c: seq<Byte>): (b: seq<Byte>)
    requires |c| <= MAX_CERTIFICATE
    ensures |b| == CERTIFICATE_BLOCK
  {
    ToBE(|c|, 2) + Fixed(c, MAX_CERTIFICATE)
  }

  function CertificateBlocks(cs: seq<seq<Byte>>): (b: seq<Byte>)
    requires forall i :: 0 <= i < |cs| ==> |cs[i]| <= MAX_CERTIFICATE
    ensures |b| == CERTIFICATE_BLOCK * |cs|
  {
    if cs == [] then [] else CertificateBlocks(cs[..|cs| - 1]) + CertificateBlock(cs[|cs| - 1])
  }

  function Objects(s: State): (b: seq<Byte>)
    requires StateOk(s)
    ensures |b| == 306
  {
    [|s.name|] + Fixed(s.name, MAX_NAME) + [|s.language|] + Fixed(s.language, MAX_LANGUAGE)
    + [s.sex] + [|s.url|] + Fixed(s.url, MAX_URL)
  }

  function Encode(s: State): (b: seq<Byte>)
    requires StateOk(s)
    ensures |b| == STATE_V3 <= STATE_BYTES
  {
    [STATE_VERSION] + Pin.Encoded(s.pw1) + Pin.Encoded(s.pw3) + KeyBlocks(s.keys) + Objects(s)
    + CertificateBlocks(s.certificates) + ToBE(s.signatures, 4)
  }

  // ----- decoding ----------------------------------------------------------------------------

  /** The one width above a scalar that a slot without an RSA key may have. */
  predicate ImportGeometry(index: nat, len: nat, algo: Byte)
  {
    len == KEY_BYTES + MATERIAL_BYTES && index == 1 && (algo == UNSET || algo == ECDH_P256)
  }

  predicate KeyAccepted(index: nat, len: nat, algo: Byte, material: seq<Byte>)
    requires |material| == SLOT_BYTES
  {
    && len <= SLOT_BYTES
    && if algo == RSA2048 then len == RsaBlob.BLOB_BYTES && RsaBlob.FromBlob(material[..len]).Some?
       else len <= SCALAR_MAX || ImportGeometry(index, len, algo)
  }

  /** Only the meaningful octets are copied into a zeroed slot. */
  function Trimmed(k: KeySlot): (t: KeySlot)
    requires SlotOk(k)
    ensures SlotOk(t)
  {
    k.(material := Fixed(k.material[..k.len], SLOT_BYTES))
  }

  function DecodeKey(index: nat, b: seq<Byte>): (k: Option<KeySlot>)
    requires |b| == KEY_BLOCK
    ensures k.Some? ==> SlotOk(k.value)
  {
    var len := U16Of(b[1], b[2]);
    if !KeyAccepted(index, len, b[3], b[4..]) then None
    else Some(Trimmed(KeySlot(b[0] != 0, len, b[3], b[4..])))
  }

  /**
   Which stored key octets decode: an RSA slot (algorithm 5) only with all 1156 octets of a
   plausible key, any other with at most 48 octets, or with the 104 of an ECDH import in the
   decryption slot.
   */
  lemma DecodeKeyIff(index: nat, b: seq<Byte>)
    requires |b| == KEY_BLOCK
    ensures var len := 256 * (b[1] as int) + (b[2] as int);
            DecodeKey(index, b).Some? <==>
              if b[3] == 5 then len == 1156 && RsaBlob.Plausible(RsaBlob.Fields(b[4..], 128))
              else len <= 48 || (len == 104 && index == 1 && (b[3] == 0 || b[3] == 2))
  {
    hide RsaBlob.Fields, RsaBlob.Plausible, Trimmed;
    assert b[4..][..1156] == b[4..];
  }

  /** The first `count` key slots. */
  function DecodeKeys(b: seq<Byte>, count: nat): (ks: Option<seq<KeySlot>>)
    requires |b| >= KEY_BLOCK * count
    ensures ks.Some? ==> |ks.value| == count && forall i :: 0 <= i < count ==> SlotOk(ks.value[i])
  {
    if count == 0 then Some([])
    else
      match DecodeKeys(b, count - 1)
      case None => None
      case Some(front) =>
        match DecodeKey(count - 1, b[KEY_BLOCK * (count - 1)..KEY_BLOCK * count])
        case None => None
        case Some(k) => Some(front + [k])
  }

  function DecodeCertificate(b: seq<Byte>): (c: Option<seq<Byte>>)
    requires |b| == CERTIFICATE_BLOCK
    ensures c.Some? ==> |c.value| <= MAX_CERTIFICATE
  {
    var len := U16Of(b[0], b[1]);
    if len > MAX_CERTIFICATE then None else Some(b[2..2 + len])
  }

  function DecodeCertificates(b: seq<Byte>, count: nat): (cs: Option<seq<seq<Byte>>>)
    requires |b| >= CERTIFICATE_BLOCK * count
    ensures cs.Some? ==> |cs.value| == count && forall i :: 0 <= i < count ==> |cs.value[i]| <= MAX_CERTIFICATE
  {
    if count == 0 then Some([])
    else
      match DecodeCertificates(b, count - 1)
      case None => None
      case Some(front) =>
        match DecodeCertificate(b[CERTIFICATE_BLOCK * (count - 1)..CERTIFICATE_BLOCK * count])
        case None => None
        case Some(c) => Some(front + [c])
  }

  /** A length octet and a field of fixed width. */
  function DecodeField(b: seq<Byte>, width: nat): (v: Option<seq<Byte>>)
    requires |b| == 1 + width
    ensures v.Some? ==> |v.value| <= width
  {
    if b[0] > width then None else Some(b[1..1 + b[0]])
  }

  /** Version 3 of the decoder; a reloaded PIN counter never rises above its session floor. */
  function Decode(b: seq<Byte>, floor1: nat, floor3: nat): (s: Option<State>)
  {
    if |b| < STATE_V3 || b[0] != STATE_VERSION then None
    else
      var pw1, pw3 := Pin.Decoded(PgpPins.POLICY, b[1..37]), Pin.Decoded(PgpPins.POLICY, b[37..73]);
      var keys := DecodeKeys(b[73..3553], 3);
      var name, language := DecodeField(b[3553..3593], MAX_NAME), DecodeField(b[3593..3602], MAX_LANGUAGE);
      var url, certificates := DecodeField(b[3603..3859], MAX_URL), DecodeCertificates(b[3859..7321], 3);
      if pw1.None? || pw3.None? || keys.None? || name.None? || language.None? || url.None? || certificates.None? then
        None
      else
        Some(State(Pin.Clamped(pw1.value, floor1), Pin.Clamped(pw3.value, floor3), keys.value,
                   name.value, language.value, b[3602], url.value, certificates.value, FromBE(b[7321..7325])))
  }

  // ----- the round trip ----------------------------------------------------------------------

  /** What the decoder asks of a stored key slot. */
  predicate Storable(index: nat, k: KeySlot)
    requires SlotOk(k)
  {
    KeyAccepted(index, k.len, k.algo, k.material)
  }

  predicate AllStorable(keys: seq<KeySlot>)
    requires forall i :: 0 <= i < |keys| ==> SlotOk(keys[i])
  {
    forall i :: 0 <= i < |keys| ==> Storable(i, keys[i])
  }

  function AllTrimmed(keys: seq<KeySlot>): (t: seq<KeySlot>)
    requires forall i :: 0 <= i < |keys| ==> SlotOk(keys[i])
    ensures |t| == |keys|
    ensures forall i :: 0 <= i < |keys| ==> t[i] == Trimmed(keys[i])
  {
    seq(|keys|, i requires 0 <= i < |keys| => Trimmed(keys[i]))
  }

  lemma U16RoundTrip(v: nat)
    requires v < U16
    ensures U16Of(ToBE(v, 2)[0], ToBE(v, 2)[1]) == v
  {
    assert ToBE(v, 2) == ToBE(v / 256, 1) + [v % 256];
    assert ToBE(v / 256, 1) == ToBE(v / 256 / 256, 0) + [v / 256 % 256];
  }

  lemma KeyRoundTrip(index: nat, k: KeySlot)
    requires SlotOk(k)
    ensures DecodeKey(index, KeyBlock(k)) == if Storable(index, k) then Some(Trimmed(k)) else None
  {
    hide ToBE, U16Of, RsaBlob.FromBlob, Fixed;
    U16RoundTrip(k.len);
    var b := KeyBlock(k);
    assert b[1] == ToBE(k.len, 2)[0] && b[2] == ToBE(k.len, 2)[1];
    assert b[4..] == k.material;
  }

  /** Where the last slot lies among the encoded ones. */
  lemma LastKeyBlock(keys: seq<KeySlot>, rest: seq<Byte>)
    requires keys != [] && forall i :: 0 <= i < |keys| ==> SlotOk(keys[i])
    ensures var n := |keys| - 1;
            var b := KeyBlocks(keys) + rest;
            && b == KeyBlocks(keys[..n]) + (KeyBlock(keys[n]) + rest)
            && b[KEY_BLOCK * n..KEY_BLOCK * (n + 1)] == KeyBlock(keys[n])
  {
    hide KeyBlock, SlotOk;
    var n := |keys| - 1;
    var front, last := KeyBlocks(keys[..n]), KeyBlock(keys[n]);
    assert KeyBlocks(keys) == front + last && |front| == KEY_BLOCK * n;
    hide KeyBlocks;
    Middle(front, last, rest);
  }

  lemma {:induction false} KeysRoundTrip(keys: seq<KeySlot>, rest: seq<Byte>)
    requires forall i :: 0 <= i < |keys| ==> SlotOk(keys[i])
    ensures DecodeKeys(KeyBlocks(keys) + rest, |keys|) ==
            if AllStorable(keys) then Some(AllTrimmed(keys)) else None
  {
    hide DecodeKey, KeyBlock, Storable, Trimmed, SlotOk;
    if keys != [] {
      var n := |keys| - 1;
      var front, last := keys[..n], keys[n];
      KeysRoundTrip(front, KeyBlock(last) + rest);
      KeyRoundTrip(n, last);
      LastKeyBlock(keys, rest);
      hide KeyBlocks;
      assert AllStorable(keys) <==> AllStorable(front) && Storable(n, last) by {
        assert forall i :: 0 <= i < n ==> front[i] == keys[i];
      }
      assert AllTrimmed(keys) == AllTrimmed(front) + [Trimmed(last)];
    }
  }

  lemma CertificateRoundTrip(c: seq<Byte>)
    requires |c| <= MAX_CERTIFICATE
    ensures DecodeCertificate(CertificateBlock(c)) == Some(c)
  {
    hide ToBE, U16Of;
    U16RoundTrip(|c|);
    var b := CertificateBlock(c);
    assert b[0] == ToBE(|c|, 2)[0] && b[1] == ToBE(|c|, 2)[1];
    assert b[2..2 + |c|] == c;
  }

  lemma {:induction false} CertificatesRoundTrip(cs: seq<seq<Byte>>, rest: seq<Byte>)
    requires forall i :: 0 <= i < |cs| ==> |cs[i]| <= MAX_CERTIFICATE
    ensures DecodeCertificates(CertificateBlocks(cs) + rest, |cs|) == Some(cs)
  {
    hide DecodeCertificate, CertificateBlock;
    if cs != [] {
      var n := |cs| - 1;
      CertificatesRoundTrip(cs[..n], CertificateBlock(cs[n]) + rest);
      CertificateRoundTrip(cs[n]);
      Middle(CertificateBlocks(cs[..n]), CertificateBlock(cs[n]), rest);
      assert cs == cs[..n] + [cs[n]];
    }
  }

  lemma FieldRoundTrip(v: seq<Byte>, width: nat)
    requires |v| <= width < 256
    ensures DecodeField([|v|] + Fixed(v, width), width) == Some(v)
  {
    var b := [|v|] + Fixed(v, width);
    assert b[1..1 + |v|] == v;
  }

  /** Where each part of an encoded state lies. */
  lemma Parts(s: State)
    requires StateOk(s)
    ensures var b := Encode(s);
            && b[1..37] == Pin.Encoded(s.pw1) && b[37..73] == Pin.Encoded(s.pw3)
            && b[73..3553] == KeyBlocks(s.keys) && b[3553..3859] == Objects(s)
            && b[3859..7321] == CertificateBlocks(s.certificates) && b[7321..7325] == ToBE(s.signatures, 4)
  {
    hide KeyBlocks, CertificateBlocks, Objects, ToBE, Pin.Encoded;
  }

  lemma ObjectParts(s: State)
    requires StateOk(s)
    ensures var o := Objects(s);
            && o[..40] == [|s.name|] + Fixed(s.name, MAX_NAME)
            && o[40..49] == [|s.language|] + Fixed(s.language, MAX_LANGUAGE)
            && o[49] == s.sex
            && o[50..] == [|s.url|] + Fixed(s.url, MAX_URL)
  {
    hide Fixed;
  }

  /** The state a reload yields from the record of `s`. */
  function Reloaded(s: State, floor1: nat, floor3: nat): State
    requires StateOk(s)
  {
    s.(pw1 := Pin.Clamped(s.pw1, floor1), pw3 := Pin.Clamped(s.pw3, floor3), keys := AllTrimmed(s.keys))
  }

  /** Exactly what decoding an encoded state gives, for every state. */
  lemma DecodeOfEncode(s: State, floor1: nat, floor3: nat)
    requires StateOk(s)
    ensures Decode(Encode(s), floor1, floor3) ==
            if AllStorable(s.keys) then Some(Reloaded(s, floor1, floor3)) else None
  {
    hide Pin.Encoded, Pin.Decoded, Pin.Clamped, KeyBlocks, DecodeKeys, CertificateBlocks, DecodeCertificates, Objects,
      DecodeField, Fixed, ToBE, FromBE, AllStorable, AllTrimmed;
    var b, o := Encode(s), Objects(s);
    Parts(s);
    ObjectParts(s);
    assert b[0] == STATE_VERSION;
    Pin.DecodeInvertsEncode(s.pw1);
    Pin.DecodeInvertsEncode(s.pw3);
    KeysRoundTrip(s.keys, []);
    assert KeyBlocks(s.keys) + [] == KeyBlocks(s.keys);
    CertificatesRoundTrip(s.certificates, []);
    assert CertificateBlocks(s.certificates) + [] == CertificateBlocks(s.certificates);
    FieldRoundTrip(s.name, MAX_NAME);
    FieldRoundTrip(s.language, MAX_LANGUAGE);
    FieldRoundTrip(s.url, MAX_URL);
    assert b[3553..3593] == o[..40] && b[3593..3602] == o[40..49] && b[3602] == o[49] && b[3603..3859] == o[50..];
    PowerTable();
    BERoundTrip(s.signatures, 4);
  }

  /** A storable slot with nothing behind its meaningful octets. */
  predicate Clean(index: nat, k: KeySlot)
    requires SlotOk(k)
  {
    Storable(index, k) && Trimmed(k) == k
  }

  /** A state survives its record exactly when its slots are clean and no floor is below its counter. */
  lemma RoundTripIff(s: State, floor1: nat, floor3: nat)
    requires StateOk(s)
    ensures Decode(Encode(s), floor1, floor3) == Some(s) <==>
            && (forall i :: 0 <= i < 3 ==> Clean(i, s.keys[i]))
            && s.pw1.retries <= floor1 && s.pw3.retries <= floor3
  {
    hide Decode, Encode, Storable, Trimmed, SlotOk;
    DecodeOfEncode(s, floor1, floor3);
    if AllStorable(s.keys) {
      var r := Reloaded(s, floor1, floor3);
      assert r == s <==> r.pw1 == s.pw1 && r.pw3 == s.pw3 && r.keys == s.keys;
      ClampedSame(s.pw1, floor1);
      ClampedSame(s.pw3, floor3);
      assert r.keys == s.keys <==> forall i :: 0 <= i < 3 ==> Trimmed(s.keys[i]) == s.keys[i];
    }
  }

  lemma ClampedSame(p: Pin.Slot, floor: nat)
    requires Pin.SlotOk(p)
    ensures Pin.Clamped(p, floor) == p <==> p.retries <= floor
  {
    hide Pin.Encoded, Pin.Decoded;
  }

  // ----- which key slots a card can hold ------------------------------------------------------

  /** `KeySlot::EMPTY`, under an algorithm code. */
  function EmptySlot(algo: Byte): KeySlot { KeySlot(false, 0, algo, Zeros(SLOT_BYTES)) }

  function EffectiveAlgo(k: KeySlot, index: nat): Byte
  {
    if k.algo != UNSET then k.algo else if index == 1 then ECDH_P256 else ECDSA_P256
  }

  /** The algorithm attributes a slot takes. */
  predicate AlgoAccepted(index: nat, algo: Byte)
  {
    if index == 1 then algo in {ECDH_P256, ECDH_X25519, RSA2048} else algo in {ECDSA_P256, EDDSA, RSA2048}
  }

  type Scalar = b: seq<Byte> | |b| == 32 witness Zeros(32)
  type Index = i: nat | i < 3

  /** What changes the slots, and `Persist`: a save by any other command. */
  datatype KeyCommand =
    | PutAlgo(slot: Index, algo: Byte, saved: bool)
    | Generate(slot: Index, scalar: Scalar, rsa: Option<RsaBlob.PrivateKey>, saved: bool)
    | Import(value: seq<Byte>, saved: bool)
    | Persist(saved: bool)
    | PowerCycle
    | Select(readable: bool, saved: bool)

  /** The slots in RAM, and in the record the store holds. */
  datatype Slots = Slots(ram: seq<KeySlot>, record: Option<seq<KeySlot>>)

  predicate Three(keys: seq<KeySlot>)
  {
    |keys| == 3 && forall i :: 0 <= i < 3 ==> SlotOk(keys[i])
  }

  predicate SlotsOk(m: Slots) { Three(m.ram) && (m.record.Some? ==> Three(m.record.value)) }

  function Erased(): seq<KeySlot> { [EmptySlot(UNSET), EmptySlot(UNSET), EmptySlot(UNSET)] }

  function Virgin(): (m: Slots)
    ensures SlotsOk(m)
  {
    Slots(Erased(), None)
  }

  function Written(m: Slots, ram: seq<KeySlot>, saved: bool): Slots
  {
    Slots(ram, if saved then Some(ram) else m.record)
  }

  /** The slot GENERATE leaves: an RSA blob, a scalar, or `None` when no key was made. */
  function Generated(k: KeySlot, slot: Index, scalar: Scalar, rsa: Option<RsaBlob.PrivateKey>): (r: Option<KeySlot>)
    ensures r.Some? ==> SlotOk(r.value)
  {
    var algo := EffectiveAlgo(k, slot);
    if algo != RSA2048 then Some(KeySlot(true, 32, algo, Fixed(scalar, SLOT_BYTES)))
    else if rsa.None? then None
    else Some(KeySlot(true, RsaBlob.BLOB_BYTES, RSA2048, RsaBlob.ToBlob(rsa.value)))
  }

  function KeyNext(m: Slots, c: KeyCommand): (m': Slots)
    requires SlotsOk(m)
    ensures SlotsOk(m')
  {
    match c
    case PutAlgo(slot, algo, saved) =>
      if !AlgoAccepted(slot, algo) then m else Written(m, m.ram[slot := EmptySlot(algo)], saved)
    case Generate(slot, scalar, rsa, saved) =>
      var k := Generated(m.ram[slot], slot, scalar, rsa);
      if k.None? then m else Written(m, m.ram[slot := k.value], saved)
    case Import(value, saved) =>
      var k := PutMaterial(m.ram[1], value);
      if k.None? then m else Written(m, m.ram[1 := k.value], saved)
    case Persist(saved) => Written(m, m.ram, saved)
    case PowerCycle => m.(ram := Erased())
    case Select(readable, saved) =>
      if readable && m.record.Some? && AllStorable(m.record.value) then m.(ram := AllTrimmed(m.record.value))
      else Written(m, m.ram, saved)
  }

  function KeyRun(m: Slots, cs: seq<KeyCommand>): (m': Slots)
    requires SlotsOk(m)
    ensures SlotsOk(m')
    decreases |cs|
  {
    if cs == [] then m else KeyRun(KeyNext(m, cs[0]), cs[1..])
  }

  /** The RSA keys a run sees come from the generator. */
  ghost predicate FromGenerator(c: KeyCommand)
  {
    c.Generate? && c.rsa.Some? ==> RsaBlob.Generated(c.rsa.value)
  }

  /** An RSA attribute whose key was never generated. */
  predicate Keyless(k: KeySlot) { k.algo == RSA2048 && k.len == 0 }

  predicate Held(index: nat, k: KeySlot)
    requires SlotOk(k)
  {
    Clean(index, k) || Keyless(k)
  }

  predicate AllHeld(keys: seq<KeySlot>)
    requires Three(keys)
  {
    forall i :: 0 <= i < 3 ==> Held(i, keys[i])
  }

  lemma KeylessIsNotStorable(index: nat, k: KeySlot)
    requires SlotOk(k) && Keyless(k)
    ensures !Storable(index, k)
  {
  }

  lemma EmptyHeld(index: nat, algo: Byte)
    ensures SlotOk(EmptySlot(algo)) && Held(index, EmptySlot(algo))
    ensures Clean(index, EmptySlot(algo)) <==> algo != RSA2048
  {
    assert Trimmed(EmptySlot(algo)).material == EmptySlot(algo).material;
  }

  lemma GeneratedHeld(k: KeySlot, slot: Index, scalar: Scalar, rsa: Option<RsaBlob.PrivateKey>)
    requires rsa.Some? ==> RsaBlob.Generated(rsa.value)
    requires Generated(k, slot, scalar, rsa).Some?
    ensures Held(slot, Generated(k, slot, scalar, rsa).value)
  {
    hide RsaBlob.ToBlob, RsaBlob.FromBlob;
    var g := Generated(k, slot, scalar, rsa).value;
    if EffectiveAlgo(k, slot) == RSA2048 {
      RsaBlob.GeneratedSurvives(rsa.value);
      assert g.material[..g.len] == g.material;
    }
    assert Trimmed(g).material == g.material;
  }

  lemma ImportHeld(k: KeySlot, value: seq<Byte>)
    requires SlotOk(k) && Held(1, k) && PutMaterial(k, value).Some?
    ensures Held(1, PutMaterial(k, value).value)
  {
    hide RsaBlob.FromBlob, ParseImport, Layout;
    var g := PutMaterial(k, value).value;
    var n := KEY_BYTES + MATERIAL_BYTES;
    assert k.len <= n && Trimmed(k) == k;
    assert g.len == n && g.material[n..] == k.material[n..];
    assert k.material[n..] == Zeros(SLOT_BYTES - n);
    assert Trimmed(g).material == g.material[..n] + g.material[n..] == g.material;
  }

  lemma ReplaceHeld(keys: seq<KeySlot>, slot: Index, k: KeySlot)
    requires Three(keys) && AllHeld(keys) && SlotOk(k) && Held(slot, k)
    ensures Three(keys[slot := k]) && AllHeld(keys[slot := k])
  {
    hide Held, SlotOk;
  }

  lemma TrimmedHeld(keys: seq<KeySlot>)
    requires Three(keys) && AllHeld(keys) && AllStorable(keys)
    ensures AllTrimmed(keys) == keys
  {
    hide Trimmed, Storable;
    forall i | 0 <= i < 3
      ensures Trimmed(keys[i]) == keys[i]
    {
      assert Held(i, keys[i]) && Storable(i, keys[i]);
      if Keyless(keys[i]) { KeylessIsNotStorable(i, keys[i]); }
    }
  }

  predicate SlotsHeld(m: Slots)
    requires SlotsOk(m)
  {
    AllHeld(m.ram) && (m.record.Some? ==> AllHeld(m.record.value))
  }

  lemma KeyNextHeld(m: Slots, c: KeyCommand)
    requires SlotsOk(m) && SlotsHeld(m) && FromGenerator(c)
    ensures SlotsHeld(KeyNext(m, c))
  {
    hide Held, SlotOk, EmptySlot, Generated, PutMaterial, FromGenerator, AllStorable;
    match c {
      case PutAlgo(slot, algo, saved) =>
        EmptyHeld(slot, algo);
        ReplaceHeld(m.ram, slot, EmptySlot(algo));
      case Generate(slot, scalar, rsa, saved) =>
        assert rsa.Some? ==> RsaBlob.Generated(rsa.value) by { FromGeneratorIs(c); }
        var k := Generated(m.ram[slot], slot, scalar, rsa);
        if k.Some? {
          GeneratedHeld(m.ram[slot], slot, scalar, rsa);
          ReplaceHeld(m.ram, slot, k.value);
        }
      case Import(value, saved) =>
        var k := PutMaterial(m.ram[1], value);
        if k.Some? {
          ImportHeld(m.ram[1], value);
          ReplaceHeld(m.ram, 1, k.value);
        }
      case Persist(_) =>
      case PowerCycle =>
        EmptyHeld(0, UNSET);
        EmptyHeld(1, UNSET);
        EmptyHeld(2, UNSET);
      case Select(readable, saved) =>
        if m.record.Some? && AllStorable(m.record.value) { TrimmedHeld(m.record.value); }
    }
  }

  lemma FromGeneratorIs(c: KeyCommand)
    requires FromGenerator(c) && c.Generate?
    ensures c.rsa.Some? ==> RsaBlob.Generated(c.rsa.value)
  {
  }

  lemma {:induction false} KeyRunHeld(m: Slots, cs: seq<KeyCommand>)
    requires SlotsOk(m) && SlotsHeld(m)
    requires forall i :: 0 <= i < |cs| ==> FromGenerator(cs[i])
    ensures SlotsHeld(KeyRun(m, cs))
    decreases |cs|
  {
    hide SlotsHeld, KeyNext, FromGenerator;
    if cs != [] {
      KeyNextHeld(m, cs[0]);
      KeyRunHeld(KeyNext(m, cs[0]), cs[1..]);
    }
  }

  /**
   After any run of the card, a state with the slots it then holds survives its record
   exactly when no slot has an RSA attribute without a key (and the floors allow it).
   */
  lemma ReachedStateSurvivesIff(cs: seq<KeyCommand>, s: State, floor1: nat, floor3: nat)
    requires forall i :: 0 <= i < |cs| ==> FromGenerator(cs[i])
    requires StateOk(s) && s.keys == KeyRun(Virgin(), cs).ram
    requires s.pw1.retries <= floor1 && s.pw3.retries <= floor3
    ensures Decode(Encode(s), floor1, floor3) == Some(s) <==> forall i :: 0 <= i < 3 ==> !Keyless(s.keys[i])
    ensures Decode(Encode(s), floor1, floor3).None? <==> exists i :: 0 <= i < 3 && Keyless(s.keys[i])
  {
    hide Decode, Encode, Storable, Trimmed, SlotOk, KeyRun, FromGenerator, EmptySlot, Keyless;
    EmptyHeld(0, UNSET);
    EmptyHeld(1, UNSET);
    EmptyHeld(2, UNSET);
    KeyRunHeld(Virgin(), cs);
    RoundTripIff(s, floor1, floor3);
    DecodeOfEncode(s, floor1, floor3);
    assert AllHeld(s.keys);
    forall i | 0 <= i < 3
      ensures Clean(i, s.keys[i]) <==> !Keyless(s.keys[i])
      ensures Storable(i, s.keys[i]) <==> !Keyless(s.keys[i])
    {
      assert Held(i, s.keys[i]);
      if Keyless(s.keys[i]) { KeylessIsNotStorable(i, s.keys[i]); }
    }
  }

  /** The failing family: an accepted RSA attribute, saved before GENERATE, makes the record unreadable. */
  lemma RsaAttributeAloneIsLost(s: State, slot: Index, floor1: nat, floor3: nat)
    requires StateOk(s) && s.keys[slot] == EmptySlot(RSA2048)
    ensures AlgoAccepted(slot, RSA2048) && Decode(Encode(s), floor1, floor3).None?
  {
    hide Decode, Encode, Storable;
    DecodeOfEncode(s, floor1, floor3);
    KeylessIsNotStorable(slot, s.keys[slot]);
  }

  /**
   What that costs, from any state of the slots: an accepted RSA attribute that is saved,
   then a power cycle and a selection, leaves every slot erased and the record overwritten
   with the erased slots.
   */
  lemma RsaAttributeErasesKeys(m: Slots, slot: Index)
    requires SlotsOk(m)
    ensures KeyRun(m, [PutAlgo(slot, RSA2048, true), PowerCycle, Select(true, true)]) == Slots(Erased(), Some(Erased()))
  {
    hide Storable, AllTrimmed;
    var cs := [PutAlgo(slot, RSA2048, true), PowerCycle, Select(true, true)];
    var armed := m.ram[slot := EmptySlot(RSA2048)];
    var a := KeyNext(m, cs[0]);
    assert a == Slots(armed, Some(armed));
    KeylessIsNotStorable(slot, armed[slot]);
    assert !AllStorable(armed);
    var b := KeyNext(a, cs[1]);
    var c := KeyNext(b, cs[2]);
    assert cs[1..] == [cs[1], cs[2]] && cs[1..][1..] == [cs[2]] && cs[1..][1..][1..] == [];
    assert KeyRun(m, cs) == KeyRun(a, cs[1..]) == KeyRun(b, cs[1..][1..]) == KeyRun(c, []);
  }

  /** The slot holds exactly the key that was made, under the algorithm the slot had or its default. */
  predicate HoldsKey(k: KeySlot, slot: Index, algo: Byte, scalar: Scalar, rsa: Option<RsaBlob.PrivateKey>)
  {
    && SlotOk(k) && k.present
    && k.algo == (if algo != 0 then algo else if slot == 1 then 2 else 1)
    && if k.algo == 5 then k.len == 1156 && RsaBlob.FromBlob(k.material) == rsa
       else k.len == 32 && k.material[..32] == scalar
  }

  lemma GeneratedIs(k: KeySlot, slot: Index, scalar: Scalar, rsa: Option<RsaBlob.PrivateKey>)
    requires rsa.Some? ==> RsaBlob.Generated(rsa.value)
    requires k.algo != 5 || rsa.Some?
    ensures Generated(k, slot, scalar, rsa).Some?
    ensures HoldsKey(Generated(k, slot, scalar, rsa).value, slot, k.algo, scalar, rsa)
  {
    hide RsaBlob.ToBlob, RsaBlob.FromBlob, RsaBlob.Generated;
    if k.algo == 5 { RsaBlob.GeneratedSurvives(rsa.value); }
  }

  /** Slots that every run keeps are storable exactly when none has an RSA attribute without a key. */
  lemma StorableIffKeyed(keys: seq<KeySlot>)
    requires Three(keys) && AllHeld(keys)
    ensures AllStorable(keys) <==> forall i :: 0 <= i < 3 ==> !Keyless(keys[i])
  {
    hide Storable, Trimmed, SlotOk, Keyless;
    forall i | 0 <= i < 3
      ensures Storable(i, keys[i]) <==> !Keyless(keys[i])
    {
      assert Held(i, keys[i]);
      if Keyless(keys[i]) { KeylessIsNotStorable(i, keys[i]); }
    }
  }

  /**
   After any run, a key that GENERATE makes and saves is exactly what a power cycle and a
   selection bring back, and the other slots come back as they were, if and only if none of
   those has an RSA attribute without a key; otherwise every slot comes back erased.
   */
  lemma GeneratedKeyReturns(cs: seq<KeyCommand>, slot: Index, scalar: Scalar, rsa: Option<RsaBlob.PrivateKey>)
    requires forall i :: 0 <= i < |cs| ==> FromGenerator(cs[i])
    requires rsa.Some? ==> RsaBlob.Generated(rsa.value)
    requires KeyRun(Virgin(), cs).ram[slot].algo != 5 || rsa.Some?
    ensures var old_ := KeyRun(Virgin(), cs).ram;
            var m := KeyNext(KeyRun(Virgin(), cs), Generate(slot, scalar, rsa, true));
            var back := KeyNext(KeyNext(m, PowerCycle), Select(true, true)).ram;
            if forall i :: 0 <= i < 3 && i != slot ==> !Keyless(old_[i]) then
              && HoldsKey(back[slot], slot, old_[slot].algo, scalar, rsa)
              && forall i :: 0 <= i < 3 && i != slot ==> back[i] == old_[i]
            else back == Erased()
  {
    hide KeyRun, KeyNext, FromGenerator, AllHeld, HoldsKey, RsaBlob.Generated, SlotOk, Keyless, Erased;
    var m := KeyRun(Virgin(), cs);
    VirginHeld();
    KeyRunHeld(Virgin(), cs);
    var g := GeneratedStep(m, slot, scalar, rsa);
    var made := KeyNext(m, Generate(slot, scalar, rsa, true));
    KeyedSlot(g, slot, m.ram[slot].algo, scalar, rsa);
    SavedComesBack(made);
    if exists i :: 0 <= i < 3 && Keyless(made.ram[i]) {
      var i :| 0 <= i < 3 && Keyless(made.ram[i]);
      assert i != slot && Keyless(m.ram[i]);
    } else {
      assert forall i :: 0 <= i < 3 && i != slot ==> made.ram[i] == m.ram[i];
    }
  }

  lemma VirginHeld()
    ensures SlotsHeld(Virgin())
  {
    EmptyHeld(0, UNSET);
    EmptyHeld(1, UNSET);
    EmptyHeld(2, UNSET);
  }

  lemma GeneratedStep(m: Slots, slot: Index, scalar: Scalar, rsa: Option<RsaBlob.PrivateKey>) returns (g: KeySlot)
    requires SlotsOk(m) && AllHeld(m.ram)
    requires rsa.Some? ==> RsaBlob.Generated(rsa.value)
    requires m.ram[slot].algo != 5 || rsa.Some?
    ensures HoldsKey(g, slot, m.ram[slot].algo, scalar, rsa)
    ensures var made := m.ram[slot := g];
            && Three(made) && AllHeld(made)
            && KeyNext(m, Generate(slot, scalar, rsa, true)) == Slots(made, Some(made))
  {
    hide Held, Generated, HoldsKey, RsaBlob.Generated, SlotOk;
    GeneratedIs(m.ram[slot], slot, scalar, rsa);
    GeneratedHeld(m.ram[slot], slot, scalar, rsa);
    g := Generated(m.ram[slot], slot, scalar, rsa).value;
    ReplaceHeld(m.ram, slot, g);
  }

  /** Saved slots come back from a power cycle as they were, or erased if one is keyless. */
  lemma SavedComesBack(m: Slots)
    requires SlotsOk(m) && AllHeld(m.ram) && m.record == Some(m.ram)
    ensures KeyNext(KeyNext(m, PowerCycle), Select(true, true)).ram
            == if forall i :: 0 <= i < 3 ==> !Keyless(m.ram[i]) then m.ram else Erased()
  {
    hide Held, SlotOk, Keyless, AllStorable, EmptySlot;
    StorableIffKeyed(m.ram);
    if AllStorable(m.ram) { TrimmedHeld(m.ram); }
  }

  lemma KeyedSlot(k: KeySlot, slot: Index, algo: Byte, scalar: Scalar, rsa: Option<RsaBlob.PrivateKey>)
    requires HoldsKey(k, slot, algo, scalar, rsa)
    ensures !Keyless(k)
  {
  }

  // ----- the loops ---------------------------------------------------------------------------

  /** Serialise into the bounded buffer, slot by slot and certificate by certificate. */
  method SaveState(s: State) returns (buffer: seq<Byte>)
    requires StateOk(s)
    ensures buffer == Encode(s) && |buffer| <= STATE_BYTES
  {
    hide KeyBlock, CertificateBlock, Objects, Pin.Encoded, ToBE;
    buffer := [STATE_VERSION] + Pin.Encoded(s.pw1) + Pin.Encoded(s.pw3);
    ghost var head := buffer;
    for i := 0 to 3
      invariant buffer == head + KeyBlocks(s.keys[..i])
    {
      buffer := buffer + KeyBlock(s.keys[i]);
      assert s.keys[..i + 1][..i] == s.keys[..i];
    }
    assert s.keys[..3] == s.keys;
    buffer := buffer + Objects(s);
    ghost var middle := buffer;
    for i := 0 to 3
      invariant buffer == middle + CertificateBlocks(s.certificates[..i])
    {
      buffer := buffer + CertificateBlock(s.certificates[i]);
      assert s.certificates[..i + 1][..i] == s.certificates[..i];
    }
    assert s.certificates[..3] == s.certificates;
    buffer := buffer + ToBE(s.signatures, 4);
  }

  /** The key loop of the decoder, refusing at the first bad slot. */
  method DecodeKeySlots(b: seq<Byte>) returns (keys: Option<seq<KeySlot>>)
    requires |b| == 3 * KEY_BLOCK
    ensures keys == DecodeKeys(b, 3)
  {
    hide DecodeKey;
    var ks: seq<KeySlot> := [];
    for i := 0 to 3
      invariant DecodeKeys(b, i) == Some(ks)
    {
      var k := DecodeKey(i, b[KEY_BLOCK * i..KEY_BLOCK * (i + 1)]);
      if k.None? {
        NoKeyMeansNone(b, i + 1, 3);
        return None;
      }
      ks := ks + [k.value];
    }
    keys := Some(ks);
  }

  lemma NoKeyMeansNone(b: seq<Byte>, i: nat, n: nat)
    requires i <= n && |b| >= KEY_BLOCK * n && DecodeKeys(b, i).None?
    ensures DecodeKeys(b, n).None?
  {
    hide DecodeKey;
    if i < n { NoKeyMeansNone(b, i, n - 1); }
  }
}
