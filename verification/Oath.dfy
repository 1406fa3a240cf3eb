/**
 The OATH applet as a state machine over its commands: armed touch requests, HOTP moving
 factors, and a store whose writes may fail leaving the old or the new state behind.

 Two history values ride along with each credential and change nothing it does. Its
 serial is given out by PUT and never reused, so it names one stored credential across
 re-selections and failed saves. Its moving factor is the count the 32-bit counter
 stands for, without the wrap-around.
 */
module Oath {
  import opened Wrappers
  import opened Bytes
  import opened StatusWords
  import Keyed
  import OathState

  type Credential = OathState.Credential
  /** What PUT can parse: fields within their widths. */
  type Parsed = c: Credential | OathState.CredentialOk(c)
    witness OathState.Credential([], 0, 0, 0, 0, 0, 0, [])
  const MAX_CREDENTIALS := OathState.MAX_CREDENTIALS
  const MAX_SECRET := OathState.MAX_SECRET
  const TYPE_HOTP: Byte := 0x10

  const SHA1: Byte := 0x01
  const OUT_BYTES: nat := 2048

  type Digest = d: seq<Byte> | |d| <= 64
  type Challenge = c: seq<Byte> | |c| == 8 witness Zeros(8)
  const DEFAULT_CHALLENGE: Challenge := [0xA5, 0xA5, 0xA5, 0xA5, 0xA5, 0xA5, 0xA5, 0xA5]

  /**
   HMAC by algorithm, key and message, `None` for an unknown algorithm; and the next
   authentication challenge, a hash of two strings.
   */
  datatype Mac = Mac(
    hmac: (Byte, seq<Byte>, seq<Byte>) -> Option<Digest>,
    derive: (seq<Byte>, seq<Byte>) -> Challenge)

  datatype Entry = Entry(serial: nat, moving: nat, cred: Credential)

  predicate NeedsTouch(c: Credential) { c.property / 2 % 2 == 1 }
  predicate IsHotp(c: Credential) { c.kind == TYPE_HOTP }

  datatype Pending = Pending(index: nat, challenge: seq<Byte>, truncated: bool)

  /** The access key with its algorithm and the challenge the next proof must answer. */
  datatype Access = Access(key: seq<Byte>, algorithm: Byte, challenge: Challenge)

  const NO_ACCESS := Access([], SHA1, DEFAULT_CHALLENGE)

  datatype Applet = Applet(
    creds: seq<Entry>, access: Access, authenticated: bool, pending: Option<Pending>, loaded: bool, closed: bool)

  /** What flash holds: nothing, or the credentials and the access key. */
  datatype Flash = Blank | Saved(creds: seq<Entry>, access: Access)

  /** `writes` counts the states handed to the store; nothing reads it. */
  datatype World = World(applet: Applet, flash: Flash, serials: nat, writes: nat)

  /** A write that succeeds, or is refused leaving the old or the new state on flash. */
  datatype Save = Done | FailedOld | FailedNew

  /** The body of SET CODE: empty, without a field it needs, or a key with a proof of it. */
  datatype Code = Clear | Short | Install(algorithm: Byte, key: seq<Byte>, host: seq<Byte>, proof: seq<Byte>)

  datatype Command =
    | Select(entropy: Option<Challenge>)
    | Put(parsed: Option<Parsed>, save: Save)
    | Delete(name: Option<seq<Byte>>, save: Save)
    | Calculate(name: Option<seq<Byte>>, challenge: seq<Byte>, truncated: bool, save: Save)
    | CalculateAll(common: Option<seq<Byte>>, truncated: bool)
    | SetCode(code: Code, save: Save)
    | Validate(answer: Option<seq<Byte>>, question: Option<seq<Byte>>, save: Save)
    | Reset(magic: bool, save: Save)
    | Other(sw: Sw)
    | Confirm(save: Save)
    | Deny
    | PowerCycle

  /** A command, and whether a store read it triggers succeeds. */
  datatype Event = Event(readable: bool, command: Command)

  /** One code on the wire, with the stored credential it was computed from. */
  datatype Released = Released(entry: Entry, truncated: bool, bytes: seq<Byte>)

  datatype Reply = Status(sw: Sw) | Codes(codes: seq<Released>) | Proof(bytes: seq<Byte>)

  function Boot(): World { World(Applet([], NO_ACCESS, false, None, false, false), Blank, 0, 0) }

  // ----- codes -------------------------------------------------------------------------------

  /** The octets the MAC covers: the counter for HOTP, the host's challenge for TOTP. */
  function Message(c: Credential, challenge: seq<Byte>): Option<seq<Byte>>
  {
    if IsHotp(c) then Some(ToBE(c.counter, 8))
    else if |challenge| == 8 then Some(challenge) else None
  }

  /** Dynamic truncation: four octets at the offset in the last nibble, top bit cleared. */
  function Truncated(digest: seq<Byte>): Option<seq<Byte>>
  {
    if digest == [] then None
    else
      var o := digest[|digest| - 1] % 16;
      if o + 4 > |digest| then None
      else Some([digest[o] % 128, digest[o + 1], digest[o + 2], digest[o + 3]])
  }

  function Compute(mac: Mac, c: Credential, challenge: seq<Byte>, truncated: bool): Option<seq<Byte>>
  {
    var message := Message(c, challenge);
    if message.None? then None
    else
      var digest := mac.hmac(c.algorithm, c.secret, message.value);
      if digest.None? then None
      else
        var tail := if truncated then Truncated(digest.value) else Some(digest.value);
        if tail.None? then None else Some([c.digits] + tail.value)
  }

  // ----- helpers -----------------------------------------------------------------------------

  function Name(e: Entry): seq<Byte> { e.cred.name }

  function Find(es: seq<Entry>, name: seq<Byte>): (i: Option<nat>)
    ensures i.Some? ==> i.value < |es| && es[i.value].cred.name == name
    ensures i.None? ==> forall j :: 0 <= j < |es| ==> es[j].cred.name != name
  {
    Keyed.Find(es, Name, name)
  }

  predicate Authorised(a: Applet) { a.access.key == [] || a.authenticated }

  /** An attempt to save the RAM state `a`; a refused one answers `6A84`. */
  function Commit(w: World, a: Applet, save: Save, reply: Reply): (World, Reply)
  {
    var flash := if save.FailedOld? then w.flash else Saved(a.creds, a.access);
    (w.(applet := a, flash := flash, writes := w.writes + 1), if save.Done? then reply else Status(NOT_ENOUGH_MEMORY))
  }

  function Refused(w: World, a: Applet, sw: Sw): (World, Reply)
  {
    (w.(applet := a), Status(sw))
  }

  function Advanced(e: Entry): Entry
  {
    e.(moving := e.moving + 1, cred := e.cred.(counter := (e.cred.counter + 1) % U32))
  }

  /** Compute one code. An HOTP counter advances and is saved before the code goes out. */
  function Calculated(mac: Mac, w: World, index: nat, challenge: seq<Byte>, truncated: bool, save: Save): (World, Reply)
    requires index < |w.applet.creds|
  {
    var a := w.applet;
    var e := a.creds[index];
    var code := Compute(mac, e.cred, challenge, truncated);
    if code.None? then (w, Status(NO_DIAGNOSIS))
    else if IsHotp(e.cred) then
      Commit(w, a.(creds := a.creds[index := Advanced(e)]), save, Codes([Released(e, truncated, code.value)]))
    else (w, Codes([Released(e, truncated, code.value)]))
  }

  /** The eight-octet challenge an armed request keeps, right aligned. */
  function Padded(challenge: seq<Byte>): seq<Byte>
    requires |challenge| <= 8
  {
    Zeros(8 - |challenge|) + challenge
  }

  /** Octets of a field with a one-octet tag. */
  function TlvLen(n: nat): nat
  {
    1 + (if n < 0x80 then 1 else if n <= 0xFF then 2 else if n <= 0xFFFF then 3 else 4) + n
  }

  /** An answer under construction, its size so far, or why it was given up. */
  datatype Listing = Full | Unable | Listed(codes: seq<Released>, used: nat)

  /** The listing with one more credential: its name, then a marker or its code. */
  function WithEntry(mac: Mac, l: Listing, e: Entry, challenge: seq<Byte>, truncated: bool): Listing
    requires l.Listed?
  {
    var named := l.used + TlvLen(|e.cred.name|);
    if named > OUT_BYTES then Full
    else if IsHotp(e.cred) || NeedsTouch(e.cred) then
      if named + TlvLen(0) > OUT_BYTES then Full else Listed(l.codes, named + TlvLen(0))
    else
      var code := Compute(mac, e.cred, challenge, truncated);
      if code.None? then Unable
      else if named + TlvLen(|code.value|) > OUT_BYTES then Full
      else Listed(l.codes + [Released(e, truncated, code.value)], named + TlvLen(|code.value|))
  }

  /** The codes CALCULATE ALL computes: neither an HOTP nor a touch credential is among them. */
  function AllCodes(mac: Mac, es: seq<Entry>, challenge: seq<Byte>, truncated: bool): (r: Listing)
    ensures r.Listed? ==>
      && r.used <= OUT_BYTES
      && forall x :: x in r.codes ==> x.entry in es && !IsHotp(x.entry.cred) && !NeedsTouch(x.entry.cred)
  {
    if es == [] then Listed([], 0)
    else
      var front := AllCodes(mac, es[..|es| - 1], challenge, truncated);
      if !front.Listed? then front else WithEntry(mac, front, es[|es| - 1], challenge, truncated)
  }

  // ----- the commands ------------------------------------------------------------------------

  function Emptied(a: Applet): Applet
  {
    a.(creds := [], access := NO_ACCESS, authenticated := false, pending := None)
  }

  /** `load_state`: nothing once loaded; an unreadable store closes the applet. */
  function Ready(w: World, readable: bool): World
  {
    var a := w.applet.(loaded := true);
    if w.applet.loaded then w
    else if !readable then w.(applet := Emptied(a).(closed := true))
    else
      match w.flash
      case Blank => w.(applet := Emptied(a).(closed := false))
      case Saved(creds, access) => w.(applet := a.(creds := creds, access := access, closed := false))
  }

  function PutStep(w: World, parsed: Option<Parsed>, save: Save): (World, Reply)
  {
    var a := w.applet.(pending := None);
    if !Authorised(a) then Refused(w, a, SECURITY_STATUS)
    else if parsed.None? then Refused(w, a, WRONG_DATA)
    else
      var e := Entry(w.serials, parsed.value.counter, parsed.value);
      var v := w.(serials := w.serials + 1);
      var i := Find(a.creds, parsed.value.name);
      if i.Some? then Commit(v, a.(creds := a.creds[i.value := e]), save, Status(OK))
      else if |a.creds| >= MAX_CREDENTIALS then Refused(w, a, NOT_ENOUGH_MEMORY)
      else Commit(v, a.(creds := a.creds + [e]), save, Status(OK))
  }

  function DeleteStep(w: World, name: Option<seq<Byte>>, save: Save): (World, Reply)
  {
    var a := w.applet.(pending := None);
    if !Authorised(a) then Refused(w, a, SECURITY_STATUS)
    else if name.None? then Refused(w, a, WRONG_DATA)
    else
      var i := Find(a.creds, name.value);
      if i.None? then Refused(w, a, OATH_OBJECT_NOT_FOUND)
      else Commit(w, a.(creds := Keyed.SwapRemove(a.creds, i.value)), save, Status(OK))
  }

  function CalculateStep(
    mac: Mac, w: World, name: Option<seq<Byte>>, challenge: seq<Byte>, truncated: bool, save: Save): (World, Reply)
  {
    var a := w.applet;
    if !Authorised(a) then Refused(w, a, SECURITY_STATUS)
    else if name.None? then Refused(w, a, WRONG_DATA)
    else
      var i := Find(a.creds, name.value);
      if i.None? then Refused(w, a, OATH_OBJECT_NOT_FOUND)
      else if !NeedsTouch(a.creds[i.value].cred) then Calculated(mac, w, i.value, challenge, truncated, save)
      else if |challenge| > 8 then Refused(w, a, WRONG_DATA)
      else Refused(w, a.(pending := Some(Pending(i.value, Padded(challenge), truncated))), PRESENCE_REQUIRED)
  }

  function CalculateAllStep(mac: Mac, w: World, challenge: Option<seq<Byte>>, truncated: bool): (World, Reply)
  {
    var a := w.applet;
    if !Authorised(a) then Refused(w, a, SECURITY_STATUS)
    else if challenge.None? || |challenge.value| != 8 then Refused(w, a, WRONG_DATA)
    else
      match AllCodes(mac, a.creds, challenge.value, truncated)
      case Full => Refused(w, a, NOT_ENOUGH_MEMORY)
      case Unable => Refused(w, a, NO_DIAGNOSIS)
      case Listed(codes, _) => (w, Codes(codes))
  }

  /** SET CODE clears the old key before it finds that the new one is too long. */
  function SetCodeStep(mac: Mac, w: World, code: Code, save: Save): (World, Reply)
  {
    var a := w.applet;
    if !Authorised(a) then Refused(w, a, SECURITY_STATUS)
    else
      match code
      case Clear => Commit(w, a.(access := a.access.(key := []), authenticated := false), save, Status(OK))
      case Short => Refused(w, a, WRONG_DATA)
      case Install(algorithm, key, host, proof) =>
        var expected := mac.hmac(algorithm, key, host);
        if expected.None? then Refused(w, a, WRONG_DATA)
        else if expected.value != proof then Refused(w, a, AUTHENTICATION_FAILED)
        else if |key| > MAX_SECRET then Refused(w, a.(access := a.access.(key := [])), NOT_ENOUGH_MEMORY)
        else
          var access := Access(key, algorithm, mac.derive(host, key));
          Commit(w, a.(access := access, authenticated := true), save, Status(OK))
  }

  /** VALIDATE checks the host's proof, proves the key in return and moves the challenge on. */
  function ValidateStep(
    mac: Mac, w: World, answer: Option<seq<Byte>>, question: Option<seq<Byte>>, save: Save): (World, Reply)
  {
    var a := w.applet;
    var k := a.access;
    if k.key == [] then Refused(w, a, AUTH_NOT_ENABLED)
    else if answer.None? || question.None? then Refused(w, a, WRONG_DATA)
    else
      var expected := mac.hmac(k.algorithm, k.key, k.challenge);
      var proof := mac.hmac(k.algorithm, k.key, question.value);
      if expected.None? then Refused(w, a, NO_DIAGNOSIS)
      else if expected.value != answer.value then Refused(w, a, AUTHENTICATION_FAILED)
      else if proof.None? then Refused(w, a, NO_DIAGNOSIS)
      else
        var next := k.(challenge := mac.derive(k.challenge, question.value));
        Commit(w, a.(access := next, authenticated := true), save, Proof(proof.value))
  }

  /** RESET keeps the algorithm of the access key, and nothing else. */
  function ResetStep(w: World, save: Save): (World, Reply)
  {
    var a := w.applet.(pending := None);
    var v := w.(writes := w.writes + 1);
    if save.Done? then
      var access := a.access.(key := [], challenge := DEFAULT_CHALLENGE);
      (v.(applet := Emptied(a).(access := access, closed := false), flash := Blank), Status(OK))
    else
      (v.(applet := a, flash := if save.FailedOld? then w.flash else Blank), Status(NOT_ENOUGH_MEMORY))
  }

  function ConfirmStep(mac: Mac, w: World, save: Save): (World, Reply)
  {
    var p := w.applet.pending;
    var v := w.(applet := w.applet.(pending := None));
    if p.None? || p.value.index >= |v.applet.creds| then (v, Status(CONDITIONS))
    else Calculated(mac, v, p.value.index, p.value.challenge, p.value.truncated, save)
  }

  /** A selection reloads; with entropy at hand and a key to prove, the challenge is drawn afresh. */
  function SelectStep(w: World, readable: bool, entropy: Option<Challenge>): (World, Reply)
  {
    var v := Ready(w.(applet := w.applet.(loaded := false)), readable);
    var a := v.applet;
    var access := if a.access.key != [] && entropy.Some? then a.access.(challenge := entropy.value) else a.access;
    (v.(applet := a.(access := access, authenticated := !a.closed && access.key == [], pending := None)), Status(OK))
  }

  /** A command on a loaded applet. */
  function Process(mac: Mac, w: World, c: Command): (World, Reply)
    requires !c.Select? && !c.Deny? && !c.PowerCycle?
  {
    if c.Reset? then if c.magic then ResetStep(w, c.save) else (w, Status(INS_NOT_SUPPORTED))
    else if w.applet.closed then (w, Status(NO_DIAGNOSIS))
    else
      match c
      case Put(parsed, save) => PutStep(w, parsed, save)
      case Delete(name, save) => DeleteStep(w, name, save)
      case Calculate(name, challenge, truncated, save) => CalculateStep(mac, w, name, challenge, truncated, save)
      case CalculateAll(challenge, truncated) => CalculateAllStep(mac, w, challenge, truncated)
      case SetCode(code, save) => SetCodeStep(mac, w, code, save)
      case Validate(answer, question, save) => ValidateStep(mac, w, answer, question, save)
      case Other(sw) => (w, Status(sw))
      case Confirm(save) => ConfirmStep(mac, w, save)
  }

  function Next(mac: Mac, w: World, e: Event): (World, Reply)
  {
    match e.command
    case Select(entropy) => SelectStep(w, e.readable, entropy)
    case PowerCycle => (w.(applet := Boot().applet), Status(OK))
    case Deny => (w.(applet := w.applet.(pending := None)), Status(SECURITY_STATUS))
    case _ => Process(mac, Ready(w, e.readable), e.command)
  }

  // ----- what every state keeps --------------------------------------------------------------

  predicate EntryOk(e: Entry, serials: nat)
  {
    e.serial < serials && e.cred.counter == e.moving % U32 && OathState.CredentialOk(e.cred)
  }

  /** Serial numbers and names identify; the counter is the moving factor modulo 2^32. */
  predicate ListOk(es: seq<Entry>, serials: nat)
  {
    && |es| <= MAX_CREDENTIALS
    && (forall i, j :: 0 <= i < j < |es| ==> es[i].serial != es[j].serial && es[i].cred.name != es[j].cred.name)
    && (forall i :: 0 <= i < |es| ==> EntryOk(es[i], serials))
  }

  /** Lowest moving factor still unreleased, for each serial that released one. */
  type Floors = map<nat, nat>

  predicate AboveFloors(es: seq<Entry>, floors: Floors)
  {
    forall i :: 0 <= i < |es| ==> es[i].serial in floors ==> floors[es[i].serial] <= es[i].moving
  }

  predicate Good(es: seq<Entry>, serials: nat, floors: Floors)
  {
    ListOk(es, serials) && AboveFloors(es, floors)
  }

  /** The request behind an armed touch, recorded when CALCULATE armed it. */
  datatype Request = Idle | Armed(entry: Entry, challenge: seq<Byte>, truncated: bool)

  predicate PendingOk(a: Applet, request: Request)
  {
    a.pending.Some? ==>
      && request.Armed?
      && a.pending.value.index < |a.creds|
      && a.creds[a.pending.value.index] == request.entry
      && NeedsTouch(request.entry.cred)
      && a.pending.value.challenge == request.challenge
      && a.pending.value.truncated == request.truncated
  }

  predicate FloorsIssued(floors: Floors, serials: nat)
  {
    forall s :: s in floors ==> s < serials
  }

  predicate Inv(w: World, request: Request, floors: Floors)
  {
    && Good(w.applet.creds, w.serials, floors)
    && (w.flash.Saved? ==> Good(w.flash.creds, w.serials, floors))
    && |w.applet.access.key| <= MAX_SECRET
    && (w.flash.Saved? ==> |w.flash.access.key| <= MAX_SECRET)
    && FloorsIssued(floors, w.serials)
    && PendingOk(w.applet, request)
    && (w.applet.pending.Some? ==> w.applet.loaded && !w.applet.closed)
  }

  /** What a CALCULATE that answered "touch" asked for. */
  function Asked(w: World, c: Command, reply: Reply, request: Request): Request
  {
    if c.Calculate? && reply == Status(PRESENCE_REQUIRED) && c.name.Some? && |c.challenge| <= 8 then
      var i := Find(w.applet.creds, c.name.value);
      if i.Some? then Armed(w.applet.creds[i.value], Padded(c.challenge), c.truncated) else request
    else request
  }

  function Requested(mac: Mac, w: World, e: Event, request: Request): Request
  {
    Asked(Ready(w, e.readable), e.command, Next(mac, w, e).1, request)
  }

  /** The HOTP codes among those a reply releases. */
  function Hotp(codes: seq<Released>): (r: seq<Released>)
    ensures forall x :: x in r <==> x in codes && IsHotp(x.entry.cred)
  {
    if codes == [] then []
    else (if IsHotp(codes[0].entry.cred) then [codes[0]] else []) + Hotp(codes[1..])
  }

  function HotpOf(reply: Reply): seq<Released>
  {
    if reply.Codes? then Hotp(reply.codes) else []
  }

  function Raised(floors: Floors, released: seq<Released>): Floors
    decreases |released|
  {
    if released == [] then floors
    else Raised(floors[released[0].entry.serial := released[0].entry.moving + 1], released[1..])
  }

  /** At most one HOTP code goes out, and its moving factor is not below the floor. */
  predicate Sound(released: seq<Released>, floors: Floors)
  {
    && |released| <= 1
    && (forall x :: x in released ==>
          && IsHotp(x.entry.cred)
          && x.entry.cred.counter == x.entry.moving % U32
          && (x.entry.serial in floors ==> floors[x.entry.serial] <= x.entry.moving))
  }

  predicate StepOk(next: (World, Reply), request: Request, floors: Floors)
  {
    && Sound(HotpOf(next.1), floors)
    && Inv(next.0, request, Raised(floors, HotpOf(next.1)))
  }

  lemma SwapRemoveKeeps(es: seq<Entry>, i: nat, serials: nat, floors: Floors)
    requires Good(es, serials, floors) && i < |es|
    ensures Good(Keyed.SwapRemove(es, i), serials, floors)
  {
    var r := Keyed.SwapRemove(es, i);
    forall j, k | 0 <= j < k < |r|
      ensures r[j].serial != r[k].serial && r[j].cred.name != r[k].cred.name
    {
    }
  }

  lemma ReplaceKeeps(es: seq<Entry>, i: nat, e: Entry, serials: nat, floors: Floors)
    requires Good(es, serials, floors) && i < |es|
    requires FloorsIssued(floors, serials)
    requires e.serial == serials && e.cred.name == es[i].cred.name && EntryOk(e, serials + 1)
    ensures Good(es[i := e], serials + 1, floors)
  {
  }

  lemma AppendKeeps(es: seq<Entry>, e: Entry, serials: nat, floors: Floors)
    requires Good(es, serials, floors) && |es| < MAX_CREDENTIALS
    requires FloorsIssued(floors, serials)
    requires e.serial == serials && EntryOk(e, serials + 1)
    requires Find(es, e.cred.name).None?
    ensures Good(es + [e], serials + 1, floors)
  {
  }

  lemma GrowKeeps(es: seq<Entry>, serials: nat, floors: Floors)
    requires Good(es, serials, floors)
    ensures Good(es, serials + 1, floors)
  {
  }

  /** Advancing one credential clears the floor its release raises, in RAM and on flash. */
  lemma AdvanceKeeps(es: seq<Entry>, i: nat, serials: nat, floors: Floors)
    requires Good(es, serials, floors) && i < |es|
    ensures Good(es[i := Advanced(es[i])], serials, floors)
    ensures Good(es[i := Advanced(es[i])], serials, floors[es[i].serial := es[i].moving + 1])
  {
    var r := es[i := Advanced(es[i])];
    assert (es[i].moving + 1) % U32 == (es[i].moving % U32 + 1) % U32;
    forall j | 0 <= j < |r|
      ensures r[j] == if j == i then Advanced(es[i]) else es[j]
    {
    }
  }

  // ----- the credentials as a map ------------------------------------------------------------

  function Lookup(a: Applet, name: seq<Byte>): Option<Entry> { Keyed.Lookup(a.creds, Name, name) }

  /** PUT goes through: authorised, well formed, and a slot to put it in. */
  predicate PutTaken(a: Applet, parsed: Option<Parsed>)
  {
    && Authorised(a) && parsed.Some?
    && (Find(a.creds, parsed.value.name).Some? || |a.creds| < MAX_CREDENTIALS)
  }

  lemma ListIsKeyed(es: seq<Entry>, serials: nat)
    requires ListOk(es, serials)
    ensures Keyed.Distinct(es, Name)
  {
  }

  /** PUT sets one name, under a serial of its own, and disarms; a refused PUT only disarms. */
  lemma PutIsUpdate(w: World, parsed: Option<Parsed>, save: Save, name: seq<Byte>)
    requires ListOk(w.applet.creds, w.serials)
    ensures var (v, reply) := PutStep(w, parsed, save);
            && v.applet.pending.None?
            && Lookup(v.applet, name) ==
                 (if PutTaken(w.applet, parsed) && name == parsed.value.name
                  then Some(Entry(w.serials, parsed.value.counter, parsed.value)) else Lookup(w.applet, name))
            && (reply == Status(OK) <==> PutTaken(w.applet, parsed) && save.Done?)
            && (reply == Status(OK) ==> v.flash == Saved(v.applet.creds, v.applet.access))
  {
    hide Keyed.Lookup, Keyed.Find, Keyed.Distinct, ListOk, OathState.CredentialOk, EntryOk;
    ListIsKeyed(w.applet.creds, w.serials);
    if PutTaken(w.applet, parsed) {
      var e := Entry(w.serials, parsed.value.counter, parsed.value);
      var i := Find(w.applet.creds, parsed.value.name);
      if i.Some? {
        Keyed.ReplaceIsUpdate(w.applet.creds, Name, i.value, e, name);
      } else {
        Keyed.AppendIsInsert(w.applet.creds, Name, e, name);
      }
    }
  }

  /** DELETE removes one name and disarms; a refused DELETE only disarms. */
  lemma DeleteIsErase(w: World, target: Option<seq<Byte>>, save: Save, name: seq<Byte>)
    requires ListOk(w.applet.creds, w.serials)
    ensures var (v, reply) := DeleteStep(w, target, save);
            var taken := Authorised(w.applet) && target.Some? && Find(w.applet.creds, target.value).Some?;
            && v.applet.pending.None?
            && Lookup(v.applet, name) == (if taken && name == target.value then None else Lookup(w.applet, name))
            && (reply == Status(OK) <==> taken && save.Done?)
            && (reply == Status(OK) ==> v.flash == Saved(v.applet.creds, v.applet.access))
  {
    hide Keyed.Lookup, Keyed.Find, Keyed.Distinct, ListOk, Keyed.SwapRemove, EntryOk;
    ListIsKeyed(w.applet.creds, w.serials);
    if target.Some? {
      var i := Find(w.applet.creds, target.value);
      if i.Some? { Keyed.RemoveIsErase(w.applet.creds, Name, i.value, name); }
    }
  }

  /** A computation advances the counter of one HOTP credential and changes no other. */
  lemma CalculatedAdvancesOne(
    mac: Mac, w: World, index: nat, challenge: seq<Byte>, truncated: bool, save: Save, name: seq<Byte>)
    requires ListOk(w.applet.creds, w.serials) && index < |w.applet.creds|
    ensures var v := Calculated(mac, w, index, challenge, truncated, save).0;
            var e := w.applet.creds[index];
            Lookup(v.applet, name) ==
              if name == e.cred.name && IsHotp(e.cred) && Compute(mac, e.cred, challenge, truncated).Some?
              then Some(Advanced(e)) else Lookup(w.applet, name)
  {
    ListIsKeyed(w.applet.creds, w.serials);
    hide Keyed.Lookup, Keyed.Find, ListOk, Compute;
    Keyed.ReplaceIsUpdate(w.applet.creds, Name, index, Advanced(w.applet.creds[index]), name);
  }

  // ----- one step ----------------------------------------------------------------------------

  lemma GoodEmpty(serials: nat, floors: Floors)
    ensures Good([], serials, floors)
  {
  }

  lemma HotpOne(x: Released)
    ensures Hotp([x]) == if IsHotp(x.entry.cred) then [x] else []
  {
    assert [x][1..] == [];
  }

  lemma ReadyKeeps(w: World, readable: bool, request: Request, floors: Floors)
    requires Inv(w, request, floors)
    ensures Inv(Ready(w, readable), request, floors)
    ensures Ready(w, readable).applet.loaded
  {
    GoodEmpty(w.serials, floors);
    hide Good;
  }

  lemma CommitKeeps(w: World, a: Applet, save: Save, request: Request, floors: Floors)
    requires w.flash.Saved? ==> Good(w.flash.creds, w.serials, floors) && |w.flash.access.key| <= MAX_SECRET
    requires Good(a.creds, w.serials, floors) && |a.access.key| <= MAX_SECRET
    requires FloorsIssued(floors, w.serials) && PendingOk(a, request)
    requires a.loaded && (a.pending.Some? ==> !a.closed)
    ensures StepOk(Commit(w, a, save, Status(OK)), request, floors)
  {
    hide Good;
  }

  lemma PutKeeps(w: World, parsed: Option<Parsed>, save: Save, request: Request, floors: Floors)
    requires Inv(w, request, floors) && w.applet.loaded
    ensures StepOk(PutStep(w, parsed, save), request, floors)
  {
    hide Good, EntryOk, Find, NeedsTouch, OathState.CredentialOk, Commit;
    var a := w.applet.(pending := None);
    if parsed.Some? {
      var e := Entry(w.serials, parsed.value.counter, parsed.value);
      var i := Find(a.creds, parsed.value.name);
      assert EntryOk(e, w.serials + 1) by { EntryOkNew(w.serials, parsed.value); }
      if w.flash.Saved? { GrowKeeps(w.flash.creds, w.serials, floors); }
      var v := w.(serials := w.serials + 1);
      if i.Some? {
        ReplaceKeeps(a.creds, i.value, e, w.serials, floors);
        CommitKeeps(v, a.(creds := a.creds[i.value := e]), save, request, floors);
      } else if |a.creds| < MAX_CREDENTIALS {
        AppendKeeps(a.creds, e, w.serials, floors);
        CommitKeeps(v, a.(creds := a.creds + [e]), save, request, floors);
      }
    }
  }

  lemma EntryOkNew(serials: nat, c: Parsed)
    ensures EntryOk(Entry(serials, c.counter, c), serials + 1)
  {
  }

  lemma DeleteKeeps(w: World, name: Option<seq<Byte>>, save: Save, request: Request, floors: Floors)
    requires Inv(w, request, floors) && w.applet.loaded
    ensures StepOk(DeleteStep(w, name, save), request, floors)
  {
    hide Good, Keyed.SwapRemove;
    var a := w.applet.(pending := None);
    if name.Some? {
      var i := Find(a.creds, name.value);
      if i.Some? {
        SwapRemoveKeeps(a.creds, i.value, w.serials, floors);
        CommitKeeps(w, a.(creds := Keyed.SwapRemove(a.creds, i.value)), save, request, floors);
      }
    }
  }

  /** A code that goes out was saved one count further on before. */
  lemma CalculatedKeeps(
    mac: Mac, w: World, index: nat, challenge: seq<Byte>, truncated: bool, save: Save, request: Request, floors: Floors)
    requires Inv(w, request, floors) && w.applet.loaded && index < |w.applet.creds|
    requires w.applet.pending.None? || !NeedsTouch(w.applet.creds[index].cred)
    ensures StepOk(Calculated(mac, w, index, challenge, truncated, save), request, floors)
  {
    hide Good, Compute, NeedsTouch, Advanced, EntryOk;
    var e := w.applet.creds[index];
    var next := Calculated(mac, w, index, challenge, truncated, save);
    GoodAt(w.applet.creds, index, w.serials, floors);
    AdvanceKeeps(w.applet.creds, index, w.serials, floors);
    var code := Compute(mac, e.cred, challenge, truncated);
    if code.Some? {
      var x := Released(e, truncated, code.value);
      HotpOne(x);
      assert [x][1..] == [];
      if IsHotp(e.cred) {
        var raised := floors[e.serial := e.moving + 1];
        assert Raised(floors, [x]) == raised;
        assert PendingOk(next.0.applet, request);
        if save.Done? {
          assert HotpOf(next.1) == [x];
          assert Inv(next.0, request, raised);
        } else {
          assert HotpOf(next.1) == [];
          assert Inv(next.0, request, floors);
        }
      }
    }
  }

  lemma GoodAt(es: seq<Entry>, i: nat, serials: nat, floors: Floors)
    requires Good(es, serials, floors) && i < |es|
    ensures EntryOk(es[i], serials)
    ensures es[i].serial in floors ==> floors[es[i].serial] <= es[i].moving
  {
  }

  lemma CalculateKeeps(mac: Mac, w: World, c: Command, request: Request, floors: Floors)
    requires Inv(w, request, floors) && w.applet.loaded && !w.applet.closed && c.Calculate?
    ensures var next := CalculateStep(mac, w, c.name, c.challenge, c.truncated, c.save);
            StepOk(next, Asked(w, c, next.1, request), floors)
  {
    hide Good, Calculated;
    var a := w.applet;
    if Authorised(a) && c.name.Some? {
      var i := Find(a.creds, c.name.value);
      if i.Some? && !NeedsTouch(a.creds[i.value].cred) {
        CalculatedKeeps(mac, w, i.value, c.challenge, c.truncated, c.save, request, floors);
        CalculatedSays(mac, w, i.value, c.challenge, c.truncated, c.save);
      }
    }
  }

  lemma CalculatedSays(mac: Mac, w: World, index: nat, challenge: seq<Byte>, truncated: bool, save: Save)
    requires index < |w.applet.creds|
    ensures Calculated(mac, w, index, challenge, truncated, save).1 != Status(PRESENCE_REQUIRED)
    ensures Calculated(mac, w, index, challenge, truncated, save).1 != Status(CONDITIONS)
  {
  }

  lemma NoHotp(codes: seq<Released>)
    requires forall x :: x in codes ==> !IsHotp(x.entry.cred)
    ensures Hotp(codes) == []
  {
  }

  lemma CalculateAllKeeps(mac: Mac, w: World, c: Command, request: Request, floors: Floors)
    requires Inv(w, request, floors) && c.CalculateAll?
    ensures StepOk(CalculateAllStep(mac, w, c.common, c.truncated), request, floors)
  {
    hide Good, AllCodes;
    if c.common.Some? {
      var codes := AllCodes(mac, w.applet.creds, c.common.value, c.truncated);
      if codes.Listed? {
        NoHotp(codes.codes);
      }
    }
  }

  lemma AccessKeeps(mac: Mac, w: World, c: Command, request: Request, floors: Floors)
    requires Inv(w, request, floors) && w.applet.loaded && (c.SetCode? || c.Validate?)
    ensures StepOk(Process(mac, w, c), request, floors)
  {
    hide Good;
  }

  lemma ResetKeeps(w: World, save: Save, request: Request, floors: Floors)
    requires Inv(w, request, floors) && w.applet.loaded
    ensures StepOk(ResetStep(w, save), request, floors)
  {
    GoodEmpty(w.serials, floors);
    hide Good;
  }

  lemma SelectKeeps(w: World, readable: bool, entropy: Option<Challenge>, request: Request, floors: Floors)
    requires Inv(w, request, floors)
    ensures StepOk(SelectStep(w, readable, entropy), request, floors)
  {
    GoodEmpty(w.serials, floors);
    hide Good;
  }

  lemma ConfirmKeeps(mac: Mac, w: World, save: Save, request: Request, floors: Floors)
    requires Inv(w, request, floors) && w.applet.loaded
    ensures StepOk(ConfirmStep(mac, w, save), request, floors)
  {
    hide Good, Calculated;
    var p := w.applet.pending;
    if p.Some? {
      var v := w.(applet := w.applet.(pending := None));
      CalculatedKeeps(mac, v, p.value.index, p.value.challenge, p.value.truncated, save, request, floors);
    }
  }

  lemma ProcessKeeps(mac: Mac, w: World, c: Command, request: Request, floors: Floors)
    requires Inv(w, request, floors) && w.applet.loaded && !c.Select? && !c.Deny? && !c.PowerCycle?
    ensures StepOk(Process(mac, w, c), Asked(w, c, Process(mac, w, c).1, request), floors)
  {
    hide Inv, Good, PutStep, DeleteStep, CalculateStep, CalculateAllStep, SetCodeStep, ValidateStep, ResetStep,
      ConfirmStep;
    match c {
      case Reset(_, save) => ResetKeeps(w, save, request, floors);
      case Put(parsed, save) => PutKeeps(w, parsed, save, request, floors);
      case Delete(name, save) => DeleteKeeps(w, name, save, request, floors);
      case Calculate(_, _, _, _) =>
        if !w.applet.closed { CalculateKeeps(mac, w, c, request, floors); }
      case CalculateAll(_, _) => CalculateAllKeeps(mac, w, c, request, floors);
      case SetCode(_, _) => AccessKeeps(mac, w, c, request, floors);
      case Validate(_, _, _) => AccessKeeps(mac, w, c, request, floors);
      case Confirm(save) => ConfirmKeeps(mac, w, save, request, floors);
      case Other(_) =>
    }
  }

  /** Every step keeps the invariant and releases at most one, fresh, HOTP count. */
  lemma NextKeeps(mac: Mac, w: World, e: Event, request: Request, floors: Floors)
    requires Inv(w, request, floors)
    ensures StepOk(Next(mac, w, e), Requested(mac, w, e, request), floors)
  {
    GoodEmpty(w.serials, floors);
    hide Good, Process, Ready, SelectStep;
    if e.command.Select? {
      SelectKeeps(w, e.readable, e.command.entropy, request, floors);
    } else if !e.command.Deny? && !e.command.PowerCycle? {
      hide Inv;
      ReadyKeeps(w, e.readable, request, floors);
      ProcessKeeps(mac, Ready(w, e.readable), e.command, request, floors);
    }
  }

  // ----- whole runs --------------------------------------------------------------------------

  /** A world with the request behind its armed touch. */
  datatype Session = Session(world: World, request: Request)

  function After(mac: Mac, s: Session, events: seq<Event>): Session
    decreases |events|
  {
    if events == [] then s
    else
      var w := Next(mac, s.world, events[0]).0;
      After(mac, Session(w, Requested(mac, s.world, events[0], s.request)), events[1..])
  }

  /** All HOTP codes a run releases, in order. */
  function Releases(mac: Mac, w: World, events: seq<Event>): seq<Released>
    decreases |events|
  {
    if events == [] then []
    else
      var (v, reply) := Next(mac, w, events[0]);
      HotpOf(reply) + Releases(mac, v, events[1..])
  }

  /** Releases from one stored credential use rising moving factors. */
  predicate Rising(rs: seq<Released>)
  {
    forall i, j :: 0 <= i < j < |rs| && rs[i].entry.serial == rs[j].entry.serial ==>
      rs[i].entry.moving < rs[j].entry.moving
  }

  predicate AllAbove(rs: seq<Released>, floors: Floors)
  {
    forall x :: x in rs ==>
      && x.entry.cred.counter == x.entry.moving % U32
      && (x.entry.serial in floors ==> floors[x.entry.serial] <= x.entry.moving)
  }

  lemma RisingCons(x: Released, rs: seq<Released>, floors: Floors)
    requires Rising(rs) && AllAbove(rs, floors[x.entry.serial := x.entry.moving + 1])
    requires x.entry.serial in floors ==> floors[x.entry.serial] <= x.entry.moving
    requires x.entry.cred.counter == x.entry.moving % U32
    ensures Rising([x] + rs) && AllAbove([x] + rs, floors)
  {
    var all := [x] + rs;
    var raised := floors[x.entry.serial := x.entry.moving + 1];
    forall i, j | 0 <= i < j < |all| && all[i].entry.serial == all[j].entry.serial
      ensures all[i].entry.moving < all[j].entry.moving
    {
      assert all[j] == rs[j - 1];
      if i > 0 { assert all[i] == rs[i - 1]; }
    }
    forall y | y in all && y.entry.serial in floors
      ensures floors[y.entry.serial] <= y.entry.moving
    {
      if y in rs { assert y.entry.serial in raised; }
    }
  }

  lemma {:induction false} ReleasesRise(mac: Mac, w: World, events: seq<Event>, request: Request, floors: Floors)
    requires Inv(w, request, floors)
    ensures Rising(Releases(mac, w, events))
    ensures AllAbove(Releases(mac, w, events), floors)
    decreases |events|
  {
    hide Inv, Next, Requested, Rising, AllAbove;
    if events == [] {
      RisingEmpty(floors);
    } else {
      var (v, reply) := Next(mac, w, events[0]);
      var first, rest := HotpOf(reply), Releases(mac, v, events[1..]);
      NextKeeps(mac, w, events[0], request, floors);
      ReleasesRise(mac, v, events[1..], Requested(mac, w, events[0], request), Raised(floors, first));
      if first == [] {
        assert first + rest == rest;
      } else {
        var x := first[0];
        assert x in first && first[1..] == [] && first == [x];
        assert Raised(floors, first) == floors[x.entry.serial := x.entry.moving + 1];
        RisingCons(x, rest, floors);
      }
    }
  }

  lemma RisingEmpty(floors: Floors)
    ensures Rising([]) && AllAbove([], floors)
  {
  }

  lemma {:induction false} AfterKeeps(mac: Mac, s: Session, events: seq<Event>, floors: Floors)
    returns (floors': Floors)
    requires Inv(s.world, s.request, floors)
    ensures Inv(After(mac, s, events).world, After(mac, s, events).request, floors')
    decreases |events|
  {
    hide Inv, Next, Requested;
    if events == [] {
      floors' := floors;
    } else {
      var (v, reply) := Next(mac, s.world, events[0]);
      NextKeeps(mac, s.world, events[0], s.request, floors);
      floors' := AfterKeeps(mac, Session(v, Requested(mac, s.world, events[0], s.request)), events[1..],
                            Raised(floors, HotpOf(reply)));
    }
  }

  /**
   From power-up, whatever the store answers and however often the applet is re-selected:
   the codes released for one stored credential use strictly rising moving factors, each
   through its residue modulo 2^32. So the counters rise strictly while the moving factor
   is below 2^32, and a counter comes back only 2^32 counts later.
   */
  lemma CountersRiseUntilWrap(mac: Mac, events: seq<Event>, i: nat, j: nat)
    requires i < j < |Releases(mac, Boot(), events)|
    requires Releases(mac, Boot(), events)[i].entry.serial == Releases(mac, Boot(), events)[j].entry.serial
    ensures var x, y := Releases(mac, Boot(), events)[i].entry, Releases(mac, Boot(), events)[j].entry;
            && x.moving < y.moving
            && x.cred.counter == x.moving % U32 && y.cred.counter == y.moving % U32
            && (y.moving < U32 ==> x.cred.counter < y.cred.counter)
            && (x.cred.counter == y.cred.counter ==> x.moving + U32 <= y.moving)
  {
    GoodEmpty(0, map[]);
    var rs := Releases(mac, Boot(), events);
    ReleasesRise(mac, Boot(), events, Idle, map[]);
    hide Releases;
    var x, y := rs[i].entry, rs[j].entry;
    assert rs[i] in rs && rs[j] in rs;
    ModGap(x.moving, y.moving);
  }

  lemma ModGap(a: nat, b: nat)
    requires a < b
    ensures a % U32 == b % U32 ==> a + U32 <= b
    ensures b < U32 ==> a % U32 == a && b % U32 == b
  {
  }

  /** The world and the request after a run from power-up. */
  function Reached(mac: Mac, events: seq<Event>): Session { After(mac, Session(Boot(), Idle), events) }

  /**
   In every reachable state an armed touch request points at a live touch credential,
   unchanged since the CALCULATE that armed it, and keeps that CALCULATE's challenge.
   */
  lemma ArmedRequestIsLive(mac: Mac, events: seq<Event>)
    ensures PendingOk(Reached(mac, events).world.applet, Reached(mac, events).request)
  {
    GoodEmpty(0, map[]);
    var floors := AfterKeeps(mac, Session(Boot(), Idle), events, map[]);
  }

  /** What a confirmed request answers with: its own credential and challenge, or why not. */
  predicate AnswersRequest(mac: Mac, request: Request, save: Save, reply: Reply)
    requires request.Armed?
  {
    var code := Compute(mac, request.entry.cred, request.challenge, request.truncated);
    if code.None? then reply == Status(NO_DIAGNOSIS)
    else if IsHotp(request.entry.cred) && !save.Done? then reply == Status(NOT_ENOUGH_MEMORY)
    else reply == Codes([Released(request.entry, request.truncated, code.value)])
  }

  /** The bounds check in `confirm_presence` never fires: a confirmed touch answers its request. */
  lemma ConfirmAnswersRequest(mac: Mac, events: seq<Event>, readable: bool, save: Save)
    requires Reached(mac, events).world.applet.pending.Some?
    ensures Reached(mac, events).request.Armed?
    ensures AnswersRequest(mac, Reached(mac, events).request, save,
                           Next(mac, Reached(mac, events).world, Event(readable, Confirm(save))).1)
  {
    GoodEmpty(0, map[]);
    var floors := AfterKeeps(mac, Session(Boot(), Idle), events, map[]);
    hide After, Compute, Good;
  }

  /** No command but a confirmed touch releases a code of a touch credential. */
  lemma TouchCodesNeedConfirm(mac: Mac, w: World, e: Event, x: Released)
    requires Next(mac, w, e).1.Codes? && x in Next(mac, w, e).1.codes && NeedsTouch(x.entry.cred)
    ensures e.command.Confirm?
  {
    hide AllCodes, Compute, Ready;
  }

  /** The record `save_state` writes for what flash holds. */
  function Record(creds: seq<Entry>, access: Access): OathState.State
  {
    var plain := seq(|creds|, i requires 0 <= i < |creds| => creds[i].cred);
    OathState.State(plain, access.key, access.algorithm, access.challenge)
  }

  lemma RecordOk(creds: seq<Entry>, access: Access, serials: nat)
    requires ListOk(creds, serials) && |access.key| <= MAX_SECRET
    ensures OathState.StateOk(Record(creds, access))
  {
  }

  /** Every state a run saves fits the state buffer and decodes to itself. */
  lemma SavedStateDecodes(mac: Mac, events: seq<Event>)
    requires Reached(mac, events).world.flash.Saved?
    ensures var flash := Reached(mac, events).world.flash;
            var state := Record(flash.creds, flash.access);
            && OathState.StateOk(state) && |OathState.Encode(state)| <= OathState.STATE_BYTES
            && OathState.Decode(OathState.Encode(state)) == Some(state)
  {
    GoodEmpty(0, map[]);
    var floors := AfterKeeps(mac, Session(Boot(), Idle), events, map[]);
    hide After, Reached;
    var w := After(mac, Session(Boot(), Idle), events).world;
    RecordOk(w.flash.creds, w.flash.access, w.serials);
    OathState.StateRoundTrip(Record(w.flash.creds, w.flash.access));
  }

  /**
   The authenticated flag comes on only through a selection without a key, a proof of the
   key over the current challenge, or a new key that proves itself.
   */
  lemma FlagNeedsProof(mac: Mac, w: World, e: Event)
    requires Next(mac, w, e).0.applet.authenticated
    ensures var k, c := Ready(w, e.readable).applet.access, e.command;
            || w.applet.authenticated
            || (c.Select? && Next(mac, w, e).0.applet.access.key == [])
            || (c.Validate? && k.key != [] && c.answer.Some?
                && mac.hmac(k.algorithm, k.key, k.challenge) == Some(c.answer.value))
            || (c.SetCode? && k.key == [] && c.code.Install?
                && mac.hmac(c.code.algorithm, c.code.key, c.code.host) == Some(c.code.proof))
  {
    hide AllCodes, Compute, Find, Padded, Advanced, Keyed.SwapRemove;
  }

  // ----- the applet object -------------------------------------------------------------------

  class Oath {
    var creds: seq<Entry>
    var access: Access
    var authenticated: bool
    var pending: Option<Pending>
    var loaded: bool
    var closed: bool
    var flash: Flash
    var serials: nat
    ghost var writes: nat

    ghost function View(): World
      reads this
    {
      World(Applet(creds, access, authenticated, pending, loaded, closed), flash, serials, writes)
    }

    constructor ()
      ensures View() == Boot()
    {
      creds, access, authenticated, pending := [], NO_ACCESS, false, None;
      loaded, closed, flash, serials, writes := false, false, Blank, 0, 0;
    }

    method ResetVolatileState()
      modifies this
      ensures View() == old(View()).(applet := Emptied(old(View()).applet).(closed := false))
    {
      creds, access, authenticated, pending, closed := [], NO_ACCESS, false, None, false;
    }

    method LoadState(readable: bool)
      modifies this
      ensures View() == Ready(old(View()), readable)
    {
      if loaded { return; }
      loaded := true;
      if !readable {
        ResetVolatileState();
        closed := true;
      } else if flash.Blank? {
        ResetVolatileState();
      } else {
        creds, access, closed := flash.creds, flash.access, false;
      }
    }

    method SaveState(save: Save) returns (ok: bool)
      modifies this
      ensures ok == save.Done?
      ensures View() == old(View()).(
        flash := if save.FailedOld? then old(flash) else Saved(creds, access), writes := old(writes) + 1)
    {
      writes := writes + 1;
      if !save.FailedOld? { flash := Saved(creds, access); }
      ok := save.Done?;
    }

    method FindName(name: seq<Byte>) returns (i: Option<nat>)
      ensures i == Find(creds, name)
    {
      var k := 0;
      while k < |creds|
        invariant k <= |creds|
        invariant forall j :: 0 <= j < k ==> creds[j].cred.name != name
      {
        if creds[k].cred.name == name { return Some(k); }
        k := k + 1;
      }
      return None;
    }

    method PutCredential(parsed: Option<Parsed>, save: Save) returns (reply: Reply)
      modifies this
      ensures (View(), reply) == PutStep(old(View()), parsed, save)
    {
      hide Find, OathState.CredentialOk;
      pending := None;
      if access.key != [] && !authenticated { return Status(SECURITY_STATUS); }
      if parsed.None? { return Status(WRONG_DATA); }
      var e := Entry(serials, parsed.value.counter, parsed.value);
      var i := FindName(parsed.value.name);
      if i.Some? {
        creds := creds[i.value := e];
      } else if |creds| >= MAX_CREDENTIALS {
        return Status(NOT_ENOUGH_MEMORY);
      } else {
        creds := creds + [e];
      }
      serials := serials + 1;
      var ok := SaveState(save);
      return Status(if ok then OK else NOT_ENOUGH_MEMORY);
    }

    method DeleteCredential(name: Option<seq<Byte>>, save: Save) returns (reply: Reply)
      modifies this
      ensures (View(), reply) == DeleteStep(old(View()), name, save)
    {
      hide Find, Keyed.SwapRemove;
      pending := None;
      if access.key != [] && !authenticated { return Status(SECURITY_STATUS); }
      if name.None? { return Status(WRONG_DATA); }
      var i := FindName(name.value);
      if i.None? { return Status(OATH_OBJECT_NOT_FOUND); }
      creds := Keyed.SwapRemove(creds, i.value);
      var ok := SaveState(save);
      return Status(if ok then OK else NOT_ENOUGH_MEMORY);
    }

    method CalculateIndex(mac: Mac, index: nat, challenge: seq<Byte>, truncated: bool, save: Save)
      returns (reply: Reply)
      requires index < |creds|
      modifies this
      ensures (View(), reply) == Calculated(mac, old(View()), index, challenge, truncated, save)
    {
      hide Compute;
      var e := creds[index];
      var code := Compute(mac, e.cred, challenge, truncated);
      if code.None? { return Status(NO_DIAGNOSIS); }
      if IsHotp(e.cred) {
        creds := creds[index := Advanced(e)];
        var ok := SaveState(save);
        if !ok { return Status(NOT_ENOUGH_MEMORY); }
      }
      return Codes([Released(e, truncated, code.value)]);
    }

    method CalculateOne(mac: Mac, name: Option<seq<Byte>>, challenge: seq<Byte>, truncated: bool, save: Save)
      returns (reply: Reply)
      modifies this
      ensures (View(), reply) == CalculateStep(mac, old(View()), name, challenge, truncated, save)
    {
      if access.key != [] && !authenticated { return Status(SECURITY_STATUS); }
      if name.None? { return Status(WRONG_DATA); }
      var i := FindName(name.value);
      if i.None? { return Status(OATH_OBJECT_NOT_FOUND); }
      if NeedsTouch(creds[i.value].cred) {
        if |challenge| > 8 { return Status(WRONG_DATA); }
        pending := Some(Pending(i.value, Padded(challenge), truncated));
        return Status(PRESENCE_REQUIRED);
      }
      reply := CalculateIndex(mac, i.value, challenge, truncated, save);
    }

    method CalculateEvery(mac: Mac, challenge: Option<seq<Byte>>, truncated: bool) returns (reply: Reply)
      ensures (View(), reply) == CalculateAllStep(mac, View(), challenge, truncated)
    {
      hide WithEntry;
      if access.key != [] && !authenticated { return Status(SECURITY_STATUS); }
      if challenge.None? || |challenge.value| != 8 { return Status(WRONG_DATA); }
      var listing := Listed([], 0);
      var k := 0;
      while k < |creds|
        invariant k <= |creds| && listing.Listed?
        invariant AllCodes(mac, creds[..k], challenge.value, truncated) == listing
      {
        assert creds[..k + 1][..k] == creds[..k];
        listing := WithEntry(mac, listing, creds[k], challenge.value, truncated);
        if !listing.Listed? {
          ListingStays(mac, creds, k + 1, challenge.value, truncated);
          return Status(if listing.Full? then NOT_ENOUGH_MEMORY else NO_DIAGNOSIS);
        }
        k := k + 1;
      }
      assert creds[..k] == creds;
      return Codes(listing.codes);
    }

    method SetAccess(mac: Mac, code: Code, save: Save) returns (reply: Reply)
      modifies this
      ensures (View(), reply) == SetCodeStep(mac, old(View()), code, save)
    {
      if access.key != [] && !authenticated { return Status(SECURITY_STATUS); }
      match code {
        case Clear =>
          access, authenticated := access.(key := []), false;
        case Short => return Status(WRONG_DATA);
        case Install(algorithm, key, host, proof) =>
          var expected := mac.hmac(algorithm, key, host);
          if expected.None? { return Status(WRONG_DATA); }
          if expected.value != proof { return Status(AUTHENTICATION_FAILED); }
          access := access.(key := []);
          if |key| > MAX_SECRET { return Status(NOT_ENOUGH_MEMORY); }
          access, authenticated := Access(key, algorithm, mac.derive(host, key)), true;
      }
      var ok := SaveState(save);
      return Status(if ok then OK else NOT_ENOUGH_MEMORY);
    }

    method ValidateHost(mac: Mac, answer: Option<seq<Byte>>, question: Option<seq<Byte>>, save: Save)
      returns (reply: Reply)
      modifies this
      ensures (View(), reply) == ValidateStep(mac, old(View()), answer, question, save)
    {
      if access.key == [] { return Status(AUTH_NOT_ENABLED); }
      if answer.None? || question.None? { return Status(WRONG_DATA); }
      var expected := mac.hmac(access.algorithm, access.key, access.challenge);
      if expected.None? { return Status(NO_DIAGNOSIS); }
      if expected.value != answer.value { return Status(AUTHENTICATION_FAILED); }
      var proof := mac.hmac(access.algorithm, access.key, question.value);
      if proof.None? { return Status(NO_DIAGNOSIS); }
      access, authenticated := access.(challenge := mac.derive(access.challenge, question.value)), true;
      var ok := SaveState(save);
      if !ok { return Status(NOT_ENOUGH_MEMORY); }
      return Proof(proof.value);
    }

    method ResetApplet(save: Save) returns (reply: Reply)
      modifies this
      ensures (View(), reply) == ResetStep(old(View()), save)
    {
      pending := None;
      writes := writes + 1;
      if !save.FailedOld? { flash := Blank; }
      if !save.Done? { return Status(NOT_ENOUGH_MEMORY); }
      creds, access := [], access.(key := [], challenge := DEFAULT_CHALLENGE);
      authenticated, closed := false, false;
      return Status(OK);
    }

    method SelectApplet(readable: bool, entropy: Option<Challenge>) returns (reply: Reply)
      modifies this
      ensures (View(), reply) == SelectStep(old(View()), readable, entropy)
    {
      loaded := false;
      LoadState(readable);
      if access.key != [] && entropy.Some? { access := access.(challenge := entropy.value); }
      authenticated, pending := !closed && access.key == [], None;
      return Status(OK);
    }

    method ConfirmPresence(mac: Mac, readable: bool, save: Save) returns (reply: Reply)
      modifies this
      ensures (View(), reply) == Next(mac, old(View()), Event(readable, Confirm(save)))
    {
      LoadState(readable);
      if closed { return Status(NO_DIAGNOSIS); }
      var p := pending;
      pending := None;
      if p.None? || p.value.index >= |creds| { return Status(CONDITIONS); }
      reply := CalculateIndex(mac, p.value.index, p.value.challenge, p.value.truncated, save);
    }

    method ProcessCommand(mac: Mac, readable: bool, c: Command) returns (reply: Reply)
      requires !c.Select? && !c.Deny? && !c.PowerCycle? && !c.Confirm?
      modifies this
      ensures (View(), reply) == Next(mac, old(View()), Event(readable, c))
    {
      hide PutStep, DeleteStep, CalculateStep, CalculateAllStep, SetCodeStep, ValidateStep, ResetStep, Ready;
      LoadState(readable);
      if closed && !c.Reset? { return Status(NO_DIAGNOSIS); }
      match c {
        case Put(parsed, save) => reply := PutCredential(parsed, save);
        case Delete(name, save) => reply := DeleteCredential(name, save);
        case SetCode(code, save) => reply := SetAccess(mac, code, save);
        case Reset(magic, save) =>
          if !magic { return Status(INS_NOT_SUPPORTED); }
          reply := ResetApplet(save);
        case Calculate(name, challenge, truncated, save) =>
          reply := CalculateOne(mac, name, challenge, truncated, save);
        case Validate(answer, question, save) => reply := ValidateHost(mac, answer, question, save);
        case CalculateAll(common, truncated) => reply := CalculateEvery(mac, common, truncated);
        case Other(sw) => return Status(sw);
      }
    }

    method DenyPresence() returns (reply: Reply)
      modifies this
      ensures forall mac: Mac, readable :: (View(), reply) == Next(mac, old(View()), Event(readable, Deny))
    {
      pending := None;
      return Status(SECURITY_STATUS);
    }
  }

  lemma {:induction false} ListingStays(mac: Mac, es: seq<Entry>, k: nat, challenge: seq<Byte>, truncated: bool)
    requires k <= |es| && !AllCodes(mac, es[..k], challenge, truncated).Listed?
    ensures AllCodes(mac, es, challenge, truncated) == AllCodes(mac, es[..k], challenge, truncated)
    decreases |es| - k
  {
    hide WithEntry;
    if k == |es| {
      assert es[..k] == es;
    } else {
      assert es[..k + 1][..k] == es[..k];
      ListingStays(mac, es, k + 1, challenge, truncated);
    }
  }
}
