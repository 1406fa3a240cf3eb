/**
 The OpenPGP symmetric layer (section 13.9 of RFC 4880): CFB with an all-zero
 first feedback register, the quick check of the session key and the
 modification detection code. The cipher and SHA-1 are uninterpreted.
 */
module Cfb {
  import opened Wrappers
  import opened Bytes
  import opened KeyWrap

  const BS := 16
  const MDC_TAG: Byte := 0xD3
  const MDC_LENGTH: Byte := 20
  const MDC_PACKET := 22
  const MAX_DATA := 4096

  const ZERO: Block16 := [0, 0, 0, 0, 0, 0, 0, 0, 0, 0, 0, 0, 0, 0, 0, 0]

  type Digest20 = b: seq<Byte> | |b| == 20 witness seq(20, i => 0)
  type Sha1 = seq<Byte> -> Digest20

  /** The next feedback register: the cipher block, zero-filled when short. */
  function Register(block: seq<Byte>): (fr: Block16)
    requires |block| <= BS
  {
    block + ZERO[|block|..]
  }

  function BlockLen(s: seq<Byte>): nat { if |s| < BS then |s| else BS }

  function Encrypt(c: Cipher, key: seq<Byte>, fr: Block16, plain: seq<Byte>): (out: seq<Byte>)
    ensures |out| == |plain|
    decreases |plain|
  {
    if plain == [] then []
    else
      var n := BlockLen(plain);
      var block := XorSeq(plain[..n], c.enc(key, fr));
      block + Encrypt(c, key, Register(block), plain[n..])
  }

  function Decrypt(c: Cipher, key: seq<Byte>, fr: Block16, text: seq<Byte>): (out: seq<Byte>)
    ensures |out| == |text|
    decreases |text|
  {
    if text == [] then []
    else
      var n := BlockLen(text);
      XorSeq(text[..n], c.enc(key, fr)) + Decrypt(c, key, Register(text[..n]), text[n..])
  }

  /** CFB decryption inverts encryption, a short last block included. */
  lemma {:induction false} DecryptInvertsEncrypt(c: Cipher, key: seq<Byte>, fr: Block16, plain: seq<Byte>)
    ensures Decrypt(c, key, fr, Encrypt(c, key, fr, plain)) == plain
    decreases |plain|
  {
    hide XorSeq, Register;
    if plain != [] {
      var n := BlockLen(plain);
      var block := XorSeq(plain[..n], c.enc(key, fr));
      var rest := Encrypt(c, key, Register(block), plain[n..]);
      DecryptInvertsEncrypt(c, key, Register(block), plain[n..]);
      XorSeqCancel(plain[..n], c.enc(key, fr));
      assert (block + rest)[..n] == block && (block + rest)[n..] == rest;
      assert plain[..n] + plain[n..] == plain;
    }
  }

  /** And encryption inverts decryption, so CFB is a bijection on every length. */
  lemma {:induction false} EncryptInvertsDecrypt(c: Cipher, key: seq<Byte>, fr: Block16, text: seq<Byte>)
    ensures Encrypt(c, key, fr, Decrypt(c, key, fr, text)) == text
    decreases |text|
  {
    hide XorSeq, Register;
    if text != [] {
      var n := BlockLen(text);
      var block := XorSeq(text[..n], c.enc(key, fr));
      var rest := Decrypt(c, key, Register(text[..n]), text[n..]);
      EncryptInvertsDecrypt(c, key, Register(text[..n]), text[n..]);
      XorSeqCancel(text[..n], c.enc(key, fr));
      assert (block + rest)[..n] == block && (block + rest)[n..] == rest;
      assert text[..n] + text[n..] == text;
    }
  }

  /** The sixteen octets of the stream before block `b`; zeros before the first. */
  function Before(s: seq<Byte>, b: nat): (p: seq<Byte>)
    requires 16 * b <= |s|
    ensures |p| == 16
    ensures b == 0 ==> forall j :: 0 <= j < 16 ==> p[j] == 0
    ensures b > 0 ==> p == s[16 * b - 16..16 * b]
  {
    if b == 0 then ZERO else s[16 * b - 16..16 * b]
  }

  lemma FullRegister(block: seq<Byte>)
    requires |block| == BS
    ensures Register(block) == block
  {
  }

  /** The first block, and where the rest of the stream begins. */
  lemma DecryptFirst(c: Cipher, key: seq<Byte>, fr: Block16, text: seq<Byte>)
    requires text != []
    ensures forall j :: 0 <= j < BlockLen(text) ==> Decrypt(c, key, fr, text)[j] == Xor(text[j], c.enc(key, fr)[j])
    ensures |text| > BS ==> Decrypt(c, key, fr, text)[BS..] == Decrypt(c, key, text[..BS], text[BS..])
  {
    hide Xor;
    var n := BlockLen(text);
    var mask := XorSeq(text[..n], c.enc(key, fr));
    if |text| > BS { FullRegister(text[..BS]); }
    assert Decrypt(c, key, fr, text)[..n] == mask;
  }

  /** Octet `j` of block `b`, from any first register. */
  lemma {:induction false} DecryptAtFrom(c: Cipher, key: seq<Byte>, fr: Block16, text: seq<Byte>, b: nat, j: nat)
    requires j < 16 && 16 * b + j < |text|
    ensures var prev: Block16 := if b == 0 then fr else text[16 * b - 16..16 * b];
            Decrypt(c, key, fr, text)[16 * b + j] == Xor(text[16 * b + j], c.enc(key, prev)[j])
    decreases b
  {
    hide Xor, Decrypt;
    DecryptFirst(c, key, fr, text);
    if b > 0 {
      var rest := text[16..];
      DecryptAtFrom(c, key, text[..16], rest, b - 1, j);
      assert Decrypt(c, key, fr, text)[16 * b + j] == Decrypt(c, key, fr, text)[16..][16 * (b - 1) + j];
      if b > 1 {
        assert rest[16 * (b - 1) - 16..16 * (b - 1)] == text[16 * b - 16..16 * b];
      }
    }
  }

  /**
   Section 13.9 of RFC 4880, octet by octet: an octet is masked with the encryption of the
   sixteen cipher octets before its block, or of zeros in the first block.
   */
  lemma DecryptAt(c: Cipher, key: seq<Byte>, text: seq<Byte>, i: nat)
    requires i < |text|
    ensures Decrypt(c, key, ZERO, text)[i] == Xor(text[i], c.enc(key, Before(text, i / 16))[i % 16])
  {
    hide Xor;
    DecryptAtFrom(c, key, ZERO, text, i / 16, i % 16);
  }

  /** The sender masks each octet with the encryption of the sixteen octets it sent before the block. */
  lemma EncryptAt(c: Cipher, key: seq<Byte>, plain: seq<Byte>, i: nat)
    requires i < |plain|
    ensures var out := Encrypt(c, key, ZERO, plain);
            out[i] == Xor(plain[i], c.enc(key, Before(out, i / 16))[i % 16])
  {
    hide Xor;
    var out := Encrypt(c, key, ZERO, plain);
    DecryptInvertsEncrypt(c, key, ZERO, plain);
    DecryptAt(c, key, out, i);
    XorCancel(out[i], c.enc(key, Before(out, i / 16))[i % 16]);
  }

  // ----- the sender's packet ------------------------------------------------------

  /** A prefix of 18 octets whose last two repeat the two before them. */
  ghost predicate GoodPrefix(prefix: seq<Byte>)
  {
    |prefix| == BS + 2 && prefix[BS] == prefix[BS - 2] && prefix[BS + 1] == prefix[BS - 1]
  }

  /** Prefix, data and modification detection code packet. */
  function Packet(sha1: Sha1, prefix: seq<Byte>, data: seq<Byte>): (p: seq<Byte>)
    ensures |p| == |prefix| + |data| + MDC_PACKET
  {
    var body := prefix + data + [MDC_TAG, MDC_LENGTH];
    body + sha1(body)
  }

  // ----- the card's decryption ------------------------------------------------------

  datatype Decrypted = Decrypted(data: seq<Byte>, mdcVerified: bool)

  /** What the card makes of a decrypted stream. */
  function Open(sha1: Sha1, plain: seq<Byte>): (r: Option<Decrypted>)
    requires |plain| >= BS + 2 + MDC_PACKET
  {
    var mdc := |plain| - MDC_PACKET;
    if plain[BS] == plain[BS - 2] && plain[BS + 1] == plain[BS - 1]
       && plain[mdc] == MDC_TAG && plain[mdc + 1] == MDC_LENGTH
    then Some(Decrypted(plain[BS + 2..mdc], sha1(plain[..mdc + 2]) == plain[mdc + 2..]))
    else None
  }

  /** A stream opens to verified data exactly when it is a sender's packet of that data. */
  lemma OpenIffPacket(sha1: Sha1, plain: seq<Byte>, data: seq<Byte>)
    requires |plain| >= BS + 2 + MDC_PACKET
    ensures Open(sha1, plain) == Some(Decrypted(data, true)) <==>
      exists prefix :: GoodPrefix(prefix) && plain == Packet(sha1, prefix, data)
  {
    var mdc := |plain| - MDC_PACKET;
    if Open(sha1, plain) == Some(Decrypted(data, true)) {
      var prefix := plain[..BS + 2];
      assert plain[..mdc + 2] == prefix + data + [MDC_TAG, MDC_LENGTH];
      assert plain == plain[..mdc + 2] + plain[mdc + 2..];
      assert GoodPrefix(prefix) && plain == Packet(sha1, prefix, data);
    }
    forall prefix | GoodPrefix(prefix) && plain == Packet(sha1, prefix, data)
      ensures Open(sha1, plain) == Some(Decrypted(data, true))
    {
      OpenPacket(sha1, prefix, data);
    }
  }

  lemma OpenPacket(sha1: Sha1, prefix: seq<Byte>, data: seq<Byte>)
    requires GoodPrefix(prefix)
    ensures Open(sha1, Packet(sha1, prefix, data)) == Some(Decrypted(data, true))
  {
    var p := Packet(sha1, prefix, data);
    var mdc := |p| - MDC_PACKET;
    assert p[..mdc + 2] == prefix + data + [MDC_TAG, MDC_LENGTH];
    assert p[BS + 2..mdc] == data;
    assert p[mdc + 2..] == sha1(p[..mdc + 2]);
  }

  function DecryptSpec(c: Cipher, sha1: Sha1, key: seq<Byte>, text: seq<Byte>): Option<Decrypted>
  {
    if !GoodKey(key) || |text| < BS + 2 + MDC_PACKET || |text| > MAX_DATA then None
    else Open(sha1, Decrypt(c, key, ZERO, text))
  }

  function EncryptSpec(c: Cipher, key: seq<Byte>, plain: seq<Byte>): Option<seq<Byte>>
  {
    if !GoodKey(key) || |plain| < BS + 2 || |plain| > MAX_DATA then None
    else Some(Encrypt(c, key, ZERO, plain))
  }

  /** The card releases verified data exactly for the encryptions of packets of it. */
  lemma DecryptIffSent(c: Cipher, sha1: Sha1, key: seq<Byte>, text: seq<Byte>, data: seq<Byte>)
    requires GoodKey(key) && BS + 2 + MDC_PACKET <= |text| <= MAX_DATA
    ensures DecryptSpec(c, sha1, key, text) == Some(Decrypted(data, true)) <==>
      exists prefix :: GoodPrefix(prefix) && text == Encrypt(c, key, ZERO, Packet(sha1, prefix, data))
  {
    var plain := Decrypt(c, key, ZERO, text);
    OpenIffPacket(sha1, plain, data);
    if DecryptSpec(c, sha1, key, text) == Some(Decrypted(data, true)) {
      var prefix :| GoodPrefix(prefix) && plain == Packet(sha1, prefix, data);
      EncryptInvertsDecrypt(c, key, ZERO, text);
    }
    forall prefix | GoodPrefix(prefix) && text == Encrypt(c, key, ZERO, Packet(sha1, prefix, data))
      ensures DecryptSpec(c, sha1, key, text) == Some(Decrypted(data, true))
    {
      DecryptInvertsEncrypt(c, key, ZERO, Packet(sha1, prefix, data));
    }
  }

  // ----- the block loops ---------------------------------------------------------------

  /** The decryption loop: the feedback register and the plaintext grow block by block. */
  method DecryptStream(c: Cipher, key: seq<Byte>, text: seq<Byte>) returns (r: Option<seq<Byte>>)
    ensures r == if |text| > MAX_DATA then None else Some(Decrypt(c, key, ZERO, text))
  {
    hide XorSeq, Register;
    var fr := ZERO;
    var plaintext, rest := [], text;
    while rest != []
      invariant |plaintext| + |rest| == |text| && |plaintext| <= MAX_DATA
      invariant plaintext + Decrypt(c, key, fr, rest) == Decrypt(c, key, ZERO, text)
      decreases |rest|
    {
      var n := BlockLen(rest);
      var block := rest[..n];
      ghost var tail := Decrypt(c, key, Register(block), rest[n..]);
      var plain := XorSeq(block, c.enc(key, fr));
      assert plaintext + (plain + tail) == (plaintext + plain) + tail;
      plaintext := plaintext + plain;
      if |plaintext| > MAX_DATA {
        return None;
      }
      fr := Register(block);
      rest := rest[n..];
    }
    assert plaintext == plaintext + [];
    r := Some(plaintext);
  }

  method DecryptAes(c: Cipher, sha1: Sha1, key: seq<Byte>, text: seq<Byte>)
    returns (r: Option<Decrypted>)
    ensures r == DecryptSpec(c, sha1, key, text)
  {
    if !GoodKey(key) || |text| < BS + 2 + MDC_PACKET {
      return None;
    }
    var stream := DecryptStream(c, key, text);
    if stream.None? {
      return None;
    }
    var plaintext := stream.value;
    var mdc := |plaintext| - MDC_PACKET;
    var structureOk := plaintext[BS] == plaintext[BS - 2] && plaintext[BS + 1] == plaintext[BS - 1]
      && plaintext[mdc] == MDC_TAG && plaintext[mdc + 1] == MDC_LENGTH;
    var verified := sha1(plaintext[..mdc + 2]) == plaintext[mdc + 2..];
    if !structureOk {
      return None;
    }
    r := Some(Decrypted(plaintext[BS + 2..mdc], verified));
  }

  method EncryptAes(c: Cipher, key: seq<Byte>, plain: seq<Byte>) returns (r: Option<seq<Byte>>)
    ensures r == EncryptSpec(c, key, plain)
  {
    hide XorSeq, Register;
    if !GoodKey(key) || |plain| < BS + 2 {
      return None;
    }
    var fr := ZERO;
    var out, rest := [], plain;
    while rest != []
      invariant |out| + |rest| == |plain| && |out| <= MAX_DATA
      invariant out + Encrypt(c, key, fr, rest) == Encrypt(c, key, ZERO, plain)
      decreases |rest|
    {
      var n := BlockLen(rest);
      var block := XorSeq(rest[..n], c.enc(key, fr));
      ghost var tail := Encrypt(c, key, Register(block), rest[n..]);
      assert out + (block + tail) == (out + block) + tail;
      out := out + block;
      if |out| > MAX_DATA {
        return None;
      }
      fr := Register(block);
      rest := rest[n..];
    }
    assert out == out + [];
    r := Some(out);
  }
}
