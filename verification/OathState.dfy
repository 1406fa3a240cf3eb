/** The serialised state of the OATH applet and its exact inverse. */
module OathState {
  import opened Wrappers
  import opened Bytes

  const MAX_CREDENTIALS: nat := 16
  const MAX_NAME: nat := 64
  const MAX_SECRET: nat := 64
  const STATE_BYTES: nat := 4096
  const STATE_VERSION: Byte := 1
  const HEADER_BYTES: nat := 77
  const CREDENTIAL_BYTES: nat := 142

  datatype Credential = Credential(
    name: seq<Byte>, kind: Byte, algorithm: Byte, digits: Byte, property: Byte,
    counter: nat, period: nat, secret: seq<Byte>)

  datatype State = State(
    credentials: seq<Credential>, authKey: seq<Byte>, authAlgorithm: Byte, authChallenge: seq<Byte>)

  predicate CredentialOk(c: Credential)
  {
    |c.name| <= MAX_NAME && |c.secret| <= MAX_SECRET && c.counter < U32 && c.period < U32
  }

  predicate StateOk(s: State)
  {
    && |s.credentials| <= MAX_CREDENTIALS && |s.authKey| <= MAX_SECRET && |s.authChallenge| == 8
    && forall i :: 0 <= i < |s.credentials| ==> CredentialOk(s.credentials[i])
  }

  // ----- encoding ---------------------------------------------------------------------------

  function Header(s: State): (h: seq<Byte>)
    requires StateOk(s)
    ensures |h| == HEADER_BYTES
  {
    [STATE_VERSION, |s.credentials|, if s.authKey == [] then 0 else 1, s.authAlgorithm, |s.authKey|]
    + Fixed(s.authKey, MAX_SECRET) + s.authChallenge
  }

  function EncodeCredential(c: Credential): (e: seq<Byte>)
    requires CredentialOk(c)
    ensures |e| == CREDENTIAL_BYTES
  {
    [c.kind, c.algorithm, c.digits, c.property] + ToBE(c.counter, 4) + ToBE(c.period, 4)
    + [|c.name|] + Fixed(c.name, MAX_NAME) + [|c.secret|] + Fixed(c.secret, MAX_SECRET)
  }

  /** Where each field of a credential stands in its 142 octets, numbers big endian. */
  lemma CredentialOffsets(c: Credential)
    requires CredentialOk(c)
    ensures var e := EncodeCredential(c);
            && e[..4] == [c.kind, c.algorithm, c.digits, c.property]
            && FromBE(e[4..8]) == c.counter && FromBE(e[8..12]) == c.period
            && e[12] == |c.name| && e[13..13 + |c.name|] == c.name
            && e[77] == |c.secret| && e[78..78 + |c.secret|] == c.secret
  {
    hide ToBE, FromBE;
    PowerTable();
    var e := EncodeCredential(c);
    assert e[4..8] == ToBE(c.counter, 4) && e[8..12] == ToBE(c.period, 4);
    BERoundTrip(c.counter, 4);
    BERoundTrip(c.period, 4);
  }

  /** Where each field of the state stands before the credentials. */
  lemma HeaderOffsets(s: State)
    requires StateOk(s)
    ensures var h := Header(s);
            && h[0] == 1 && h[1] == |s.credentials| && (h[2] == 0 <==> s.authKey == [])
            && h[3] == s.authAlgorithm && h[4] == |s.authKey|
            && h[5..5 + |s.authKey|] == s.authKey && h[69..] == s.authChallenge
  {
    var h := Header(s);
    assert h[5..5 + |s.authKey|] == Fixed(s.authKey, MAX_SECRET)[..|s.authKey|];
  }

  function EncodeAll(cs: seq<Credential>): (e: seq<Byte>)
    requires forall i :: 0 <= i < |cs| ==> CredentialOk(cs[i])
    ensures |e| == CREDENTIAL_BYTES * |cs|
  {
    if cs == [] then [] else EncodeCredential(cs[0]) + EncodeAll(cs[1..])
  }

  function Encode(s: State): (e: seq<Byte>)
    requires StateOk(s)
    ensures |e| == HEADER_BYTES + CREDENTIAL_BYTES * |s.credentials| <= STATE_BYTES
  {
    Header(s) + EncodeAll(s.credentials)
  }

  // ----- decoding ---------------------------------------------------------------------------

  /** One credential off a block of its exact size. */
  function DecodeCredential(b: seq<Byte>): (c: Option<Credential>)
    requires |b| == CREDENTIAL_BYTES
    ensures c.Some? ==> CredentialOk(c.value)
  {
    var nameLen, secretLen := b[12], b[77];
    if nameLen > MAX_NAME || secretLen > MAX_SECRET then None
    else
      FromBEBound(b[4..8]);
      FromBEBound(b[8..12]);
      PowerTable();
      Some(Credential(b[13..13 + nameLen], b[0], b[1], b[2], b[3], FromBE(b[4..8]), FromBE(b[8..12]),
                      b[78..78 + secretLen]))
  }

  function DecodeAll(b: seq<Byte>, count: nat): (cs: Option<seq<Credential>>)
    ensures cs.Some? ==> |cs.value| == count && forall i :: 0 <= i < count ==> CredentialOk(cs.value[i])
    decreases count
  {
    if count == 0 then Some([])
    else if |b| < CREDENTIAL_BYTES then None
    else
      match DecodeCredential(b[..CREDENTIAL_BYTES])
      case None => None
      case Some(c) =>
        match DecodeAll(b[CREDENTIAL_BYTES..], count - 1)
        case None => None
        case Some(cs) => Some([c] + cs)
  }

  /** Trailing octets are ignored, as the decoder never looks past the last credential. */
  function Decode(b: seq<Byte>): (s: Option<State>)
    ensures s.Some? ==> StateOk(s.value)
  {
    if |b| < HEADER_BYTES || b[0] != STATE_VERSION || b[1] > MAX_CREDENTIALS || b[4] > MAX_SECRET then None
    else
      match DecodeAll(b[HEADER_BYTES..], b[1])
      case None => None
      case Some(cs) => Some(State(cs, if b[2] != 0 then b[5..5 + b[4]] else [], b[3], b[69..HEADER_BYTES]))
  }

  // ----- the round trip ------------------------------------------------------------------------

  lemma CredentialRoundTrip(c: Credential)
    requires CredentialOk(c)
    ensures DecodeCredential(EncodeCredential(c)) == Some(c)
  {
    hide ToBE, FromBE, Fixed;
    var e := EncodeCredential(c);
    var name, secret := Fixed(c.name, MAX_NAME), Fixed(c.secret, MAX_SECRET);
    PowerTable();
    BERoundTrip(c.counter, 4);
    BERoundTrip(c.period, 4);
    assert e[4..8] == ToBE(c.counter, 4) && e[8..12] == ToBE(c.period, 4);
    assert e[13..77] == name && e[78..142] == secret;
    assert e[13..13 + |c.name|] == name[..|c.name|];
    assert e[78..78 + |c.secret|] == secret[..|c.secret|];
  }

  lemma {:induction false} CredentialsRoundTrip(cs: seq<Credential>, rest: seq<Byte>)
    requires forall i :: 0 <= i < |cs| ==> CredentialOk(cs[i])
    ensures DecodeAll(EncodeAll(cs) + rest, |cs|) == Some(cs)
  {
    hide DecodeCredential, EncodeCredential;
    if cs != [] {
      var b := EncodeAll(cs) + rest;
      CredentialRoundTrip(cs[0]);
      CredentialsRoundTrip(cs[1..], rest);
      assert b[..CREDENTIAL_BYTES] == EncodeCredential(cs[0]);
      assert b[CREDENTIAL_BYTES..] == EncodeAll(cs[1..]) + rest;
      assert [cs[0]] + cs[1..] == cs;
    }
  }

  /** Every state the applet can hold is restored exactly, and never overflows the buffer. */
  lemma StateRoundTrip(s: State)
    requires StateOk(s)
    ensures Decode(Encode(s)) == Some(s) && |Encode(s)| <= STATE_BYTES
  {
    hide EncodeAll, DecodeAll, Fixed;
    var e, key := Encode(s), Fixed(s.authKey, MAX_SECRET);
    CredentialsRoundTrip(s.credentials, []);
    assert e[HEADER_BYTES..] == EncodeAll(s.credentials) + [];
    assert e[5..69] == key;
    assert e[5..5 + |s.authKey|] == key[..|s.authKey|];
    assert e[69..HEADER_BYTES] == s.authChallenge;
  }

  // ----- the loops --------------------------------------------------------------------------------

  /** Serialise into the bounded buffer, credential by credential. */
  method SaveState(s: State) returns (buffer: seq<Byte>)
    requires StateOk(s)
    ensures buffer == Encode(s) && |buffer| <= STATE_BYTES
  {
    hide EncodeCredential;
    buffer := Header(s);
    var rest := s.credentials;
    while rest != []
      invariant forall i :: 0 <= i < |rest| ==> CredentialOk(rest[i])
      invariant buffer + EncodeAll(rest) == Encode(s)
    {
      buffer := buffer + EncodeCredential(rest[0]);
      rest := rest[1..];
    }
    assert buffer + [] == buffer;
  }

  /** The decoding loop: one block per counted credential, refusing at the first bad one. */
  method DecodeState(b: seq<Byte>) returns (s: Option<State>)
    ensures s == Decode(b)
  {
    hide DecodeCredential;
    if |b| < HEADER_BYTES || b[0] != STATE_VERSION || b[1] > MAX_CREDENTIALS || b[4] > MAX_SECRET {
      return None;
    }
    var count: nat := b[1];
    var credentials: seq<Credential>, rest := [], b[HEADER_BYTES..];
    ghost var all := DecodeAll(rest, count);
    assert all.Some? ==> [] + all.value == all.value;
    for i := 0 to count
      invariant all.Some? <==> DecodeAll(rest, count - i).Some?
      invariant all.Some? ==> all.value == credentials + DecodeAll(rest, count - i).value
    {
      if |rest| < CREDENTIAL_BYTES {
        return None;
      }
      var c := DecodeCredential(rest[..CREDENTIAL_BYTES]);
      if c.None? {
        return None;
      }
      ghost var tail := DecodeAll(rest[CREDENTIAL_BYTES..], count - i - 1);
      assert tail.Some? ==> credentials + ([c.value] + tail.value) == (credentials + [c.value]) + tail.value;
      credentials, rest := credentials + [c.value], rest[CREDENTIAL_BYTES..];
    }
    assert DecodeAll(rest, 0) == Some([]);
    assert credentials + [] == credentials;
    assert all == Some(credentials);
    var key := if b[2] != 0 then b[5..5 + b[4]] else [];
    s := Some(State(credentials, key, b[3], b[69..HEADER_BYTES]));
  }
}
