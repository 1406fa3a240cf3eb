/**
 Signing with PIV keys: the PIN and touch policies of a key, a signature that waits for
 the user's presence, and the router and card session in front of the applet.

 A log beside the token records selections, successful PIN checks, signature requests,
 confirmed presences and signatures. Nothing reads it.
 */
module PivSign {
  import opened Wrappers
  import opened Bytes
  import opened StatusWords
  import opened Chaining
  import Pin
  import PivPins
  import Card
  import Ccid

  const ALG_RSA2048: Byte := 0x07
  const ALG_ECCP256: Byte := 0x11
  const ALG_ECCP384: Byte := 0x14

  /** The width of what a key of this algorithm signs. */
  function DigestLen(algorithm: Byte): Option<nat>
  {
    if algorithm == ALG_RSA2048 then Some(256)
    else if algorithm == ALG_ECCP256 then Some(32)
    else if algorithm == ALG_ECCP384 then Some(48)
    else None
  }

  datatype PinRule = PinNever | PinOnce | PinAlways
  datatype TouchRule = TouchNever | TouchAlways | TouchCached

  type Slot = i: nat | i < 3

  datatype KeyRecord = KeyRecord(algorithm: Byte, pin: PinRule, touch: TouchRule, key: seq<Byte>)

  datatype Pending = Pending(slot: Slot, digest: seq<Byte>)

  datatype Piv = Piv(
    pins: PivPins.Applet, mgmt: bool, pending: Option<Pending>, cached: bool, records: map<Slot, KeyRecord>)

  /** Whether the two record reads of a signature succeed, and whether the primitive does. */
  datatype Fate = Fate(first: bool, second: bool, signs: bool)

  /** A command to the applet, with the store's answers. `Other` is every command without a key. */
  datatype Command =
    | PinCommand(c: PivPins.Command)
    | Sign(slot: Option<Slot>, algorithm: Byte, digest: Option<seq<Byte>>)
    | Generate(into: Slot, made: KeyRecord, point: seq<Byte>, saved: bool)
    | Other(mgmt: bool, reply: Reply)

  type Primitive = (Byte, seq<Byte>, seq<Byte>) -> seq<Byte>

  /** A released signature, with the key record it was made under. */
  datatype Signature = Signature(slot: Slot, record: KeyRecord, digest: seq<Byte>, bytes: seq<Byte>)

  datatype Answer = Status(sw: Sw) | Touch | Signed(signature: Signature) | Given(reply: Reply)

  /** The width of what a key signs, by algorithm code: RSA-2048, P-256 and P-384. */
  predicate Width(algorithm: Byte, width: nat)
  {
    (algorithm == 0x07 && width == 256) || (algorithm == 0x11 && width == 32) || (algorithm == 0x14 && width == 48)
  }

  /** Zeros, and then the digest as it was sent. */
  predicate RightAligned(padded: seq<Byte>, digest: seq<Byte>)
  {
    && |digest| <= |padded| && padded[|padded| - |digest|..] == digest
    && forall i :: 0 <= i < |padded| - |digest| ==> padded[i] == 0
  }

  /** Left padding with zeros to the width of the algorithm. */
  function Padded(algorithm: Byte, digest: seq<Byte>): (p: seq<Byte>)
    requires DigestLen(algorithm).Some? && |digest| <= DigestLen(algorithm).value
    ensures |p| == DigestLen(algorithm).value && RightAligned(p, digest)
  {
    Zeros(DigestLen(algorithm).value - |digest|) + digest
  }

  predicate NeedsTouch(a: Piv, r: KeyRecord) { r.touch.TouchAlways? || (r.touch.TouchCached? && !a.cached) }

  /** The PIN-always and touch-cache transitions of every completed signature. */
  function FinishSign(a: Piv, r: KeyRecord): Piv
  {
    a.(pins := if r.pin.PinAlways? then a.pins.(pinVerified := false) else a.pins,
       cached := if r.touch.TouchNever? then a.cached else r.touch.TouchCached?)
  }

  function CompleteSign(f: Primitive, a: Piv, slot: Slot, r: KeyRecord, digest: seq<Byte>, fate: Fate): (Piv, Answer)
  {
    if DigestLen(r.algorithm).None? then (a, Status(FUNCTION_NOT_SUPPORTED))
    else if !fate.second || |digest| != DigestLen(r.algorithm).value then (a, Status(REFERENCED_DATA_NOT_FOUND))
    else if !fate.signs then (a, Status(NO_DIAGNOSIS))
    else (FinishSign(a, r), Signed(Signature(slot, r, digest, f(r.algorithm, r.key, digest))))
  }

  function SignStep(f: Primitive, a: Piv, c: Command, fate: Fate): (Piv, Answer)
    requires c.Sign?
  {
    if c.slot.None? then (a, Status(INCORRECT_PARAMETERS))
    else if !fate.first || c.slot.value !in a.records then (a, Status(REFERENCED_DATA_NOT_FOUND))
    else
      var r := a.records[c.slot.value];
      if r.algorithm != c.algorithm || DigestLen(r.algorithm).None? then (a, Status(INCORRECT_PARAMETERS))
      else if !r.pin.PinNever? && !a.pins.pinVerified then (a, Status(SECURITY_STATUS))
      else if c.digest.None? || |c.digest.value| > DigestLen(r.algorithm).value then (a, Status(WRONG_DATA))
      else
        var padded := Padded(r.algorithm, c.digest.value);
        if NeedsTouch(a, r) then (a.(pending := Some(Pending(c.slot.value, padded))), Touch)
        else CompleteSign(f, a, c.slot.value, r, padded, fate)
  }

  /** The record and its policies are read again when presence is confirmed. */
  function Confirmed(f: Primitive, a: Piv, fate: Fate): (Piv, Answer)
  {
    var b := a.(pending := None);
    if a.pending.None? then (b, Status(CONDITIONS))
    else if !fate.first || a.pending.value.slot !in a.records then (b, Status(REFERENCED_DATA_NOT_FOUND))
    else CompleteSign(f, b, a.pending.value.slot, a.records[a.pending.value.slot], a.pending.value.digest, fate)
  }

  function Selected(h: Pin.Hash, a: Piv, c: PivPins.Command): (Piv, Sw)
    requires c.Select?
  {
    var (pins, sw) := PivPins.Next(h, a.pins, c);
    (a.(pins := pins, mgmt := false, pending := None, cached := false), sw)
  }

  function Process(h: Pin.Hash, f: Primitive, a: Piv, c: Command, fate: Fate): (Piv, Answer)
  {
    match c
    case PinCommand(p) =>
      if p.Select? then (a, Status(INCORRECT_PARAMETERS))
      else
        var (pins, sw) := PivPins.Next(h, a.pins, p);
        (a.(pins := pins), Status(sw))
    case Sign(_, _, _) => SignStep(f, a, c, fate)
    case Generate(slot, made, point, saved) =>
      if !a.mgmt then (a, Status(SECURITY_STATUS))
      else if !saved then (a, Status(NOT_ENOUGH_MEMORY))
      else (a.(records := a.records[slot := made]), Given(Reply(point, OK)))
    case Other(mgmt, reply) => (a.(mgmt := mgmt), Given(reply))
  }

  // ----- the router --------------------------------------------------------------------------

  const PIV_AID: seq<Byte> := [0xA0, 0x00, 0x00, 0x03, 0x08, 0x00, 0x00, 0x10, 0x00, 0x01, 0x00]
  const RESPONSE_BYTES: nat := 2048

  datatype Target = PivApplet | OtherApplet(index: nat)

  /** The first registered identifier that is a prefix of the requested one. */
  function FirstPrefix(aids: seq<seq<Byte>>, name: seq<Byte>): (i: Option<nat>)
    ensures i.Some? ==> i.value < |aids| && aids[i.value] <= name
    ensures i.Some? ==> forall j :: 0 <= j < i.value ==> !(aids[j] <= name)
    ensures i.None? ==> forall j :: 0 <= j < |aids| ==> !(aids[j] <= name)
  {
    if aids == [] then None
    else if aids[0] <= name then Some(0)
    else
      var rest := FirstPrefix(aids[1..], name);
      if rest.None? then None else Some(rest.value + 1)
  }

  function TargetOf(aids: seq<seq<Byte>>, name: seq<Byte>): Option<Target>
  {
    var i := FirstPrefix(aids, name);
    if i.None? then None else if aids[i.value] == PIV_AID then Some(PivApplet) else Some(OtherApplet(i.value))
  }

  /**
   How the router reads a command: refused, a selection by name with what the store then
   returns, GET RESPONSE, SEND REMAINING (a command of its own when nothing is pending),
   or a command for the applet; with the length the host expects.
   */
  datatype Apdu =
    | Bad(sw: Sw)
    | SelectOf(name: seq<Byte>, pinRead: Option<seq<Byte>>, pukRead: Option<seq<Byte>>, mgmtOk: bool)
    | GetMore(le: nat)
    | SendRemaining(c: Command, le: nat)
    | Forward(c: Command, le: nat)

  datatype Label =
    | Picked
    | PinOk
    | Asked(slot: Slot, algorithm: Byte, digest: seq<Byte>)
    | Touched
    | Made(signature: Signature)

  datatype Token = Token(piv: Piv, selected: Option<Target>, chain: Chain, time: nat, log: seq<Label>)

  /**
   The world around the token, step by step: the registered identifiers, how octets parse
   (with the store's answers), the fate of reads and primitives, what other applets answer
   (`None` when they want presence) and how they resolve one, and the fixed templates.
   */
  datatype Env = Env(
    hash: Pin.Hash, primitive: Primitive, aids: seq<seq<Byte>>, parse: (nat, seq<Byte>) -> Apdu, fate: nat -> Fate,
    other: nat -> Option<Reply>, resolve: (nat, bool) -> Reply, fci: seq<Byte>, wrap: seq<Byte> -> seq<Byte>)

  /** A presentation of the right PIN to a slot that still has attempts. */
  predicate RightPin(h: Pin.Hash, a: PivPins.Applet, c: PivPins.Command)
  {
    && (c.Verify? || c.Change?) && PivPins.Presented(c, PivPins.PinRef).Some?
    && Pin.Checked(a.pin.slot) && Pin.Matches(h, a.pin.slot, PivPins.Presented(c, PivPins.PinRef).value)
  }

  /** A request that gets as far as signing or asking for presence. */
  predicate Taken(a: Piv, c: Command, fate: Fate)
  {
    && c.Sign? && c.slot.Some? && c.digest.Some? && fate.first && c.slot.value in a.records
    && DigestLen(c.algorithm).Some? && |c.digest.value| <= DigestLen(c.algorithm).value
    && a.records[c.slot.value].algorithm == c.algorithm
    && (a.records[c.slot.value].pin.PinNever? || a.pins.pinVerified)
  }

  function Before(h: Pin.Hash, a: Piv, c: Command, fate: Fate): seq<Label>
  {
    if c.PinCommand? && RightPin(h, a.pins, c.c) then [PinOk]
    else if Taken(a, c, fate) then [Asked(c.slot.value, c.algorithm, c.digest.value)]
    else []
  }

  function Released(answer: Answer): seq<Label> { if answer.Signed? then [Made(answer.signature)] else [] }

  /** An answer on the wire: data, then the status word. */
  function Wire(r: Reply): seq<Byte> { r.data + [r.sw / 256 % 256, r.sw % 256] }

  /** The data, then the status word, high octet first. */
  lemma WireEnds(r: Reply)
    requires r.sw < U16
    ensures var w, n := Wire(r), |r.data|;
            |w| == n + 2 && w[..n] == r.data && 256 * (w[n] as int) + (w[n + 1] as int) == r.sw
  {
    var w, n := Wire(r), |r.data|;
    assert w[..n] == r.data && w[n] == r.sw / 256;
  }

  function Says(r: Reply): Card.Verdict { Card.Data(Wire(r)) }

  /** What the applet's answer carries; `None` when it wants presence. */
  function ReplyOf(env: Env, answer: Answer): Option<Reply>
  {
    match answer
    case Touch => None
    case Status(sw) => Some(Just(sw))
    case Given(reply) => Some(reply)
    case Signed(s) => Some(Reply(env.wrap(s.bytes), OK))
  }

  /** A success is handed out in pieces the host can take; anything else goes as it is. */
  function Chained(t: Token, reply: Option<Reply>, le: nat): (Token, Card.Verdict)
  {
    if reply.None? then (t, Card.Presence)
    else if reply.value.sw != OK then (t, Says(reply.value))
    else
      var (chain, piece) := Begin(reply.value.data, le, RESPONSE_BYTES);
      (t.(chain := chain), Says(piece))
  }

  function More(t: Token, le: nat): (Token, Card.Verdict)
  {
    var (chain, piece) := GetResponse(t.chain, le);
    (t.(chain := chain, time := t.time + 1), Says(piece))
  }

  /** The applet's step and its log entries, before the answer is handed out. */
  function Applied(env: Env, t: Token, c: Command): (Token, Answer)
  {
    var fate := env.fate(t.time);
    var (piv, answer) := Process(env.hash, env.primitive, t.piv, c, fate);
    var log := t.log + Before(env.hash, t.piv, c, fate) + Released(answer);
    (t.(piv := piv, time := t.time + 1, log := log), answer)
  }

  function Forwarded(env: Env, t: Token, c: Command, le: nat): (Token, Card.Verdict)
  {
    var later := t.(time := t.time + 1);
    if t.selected.None? then (later, Says(Just(CONDITIONS)))
    else if t.selected.value.OtherApplet? then Chained(later, env.other(t.time), le)
    else
      var (next, answer) := Applied(env, t, c);
      Chained(next, ReplyOf(env, answer), le)
  }

  /** A selection drops what was pending and answers unchained. */
  function SelectedBy(env: Env, t: Token, target: Option<Target>, load: PivPins.Command): (Token, Card.Verdict)
    requires load.Select?
  {
    var later := t.(time := t.time + 1, chain := Empty(), selected := target);
    if target.None? then (later, Says(Just(FILE_NOT_FOUND)))
    else if target.value.OtherApplet? then
      (later, if env.other(t.time).None? then Card.Presence else Says(env.other(t.time).value))
    else
      var (piv, sw) := Selected(env.hash, t.piv, load);
      (later.(piv := piv, log := t.log + [Picked]), Says(if sw == OK then Reply(env.fci, OK) else Just(sw)))
  }

  function Routed(env: Env, t: Token, bytes: seq<Byte>): (Token, Card.Verdict)
  {
    match env.parse(t.time, bytes)
    case Bad(sw) => (t.(time := t.time + 1), Says(Just(sw)))
    case GetMore(le) => More(t, le)
    case SendRemaining(c, le) => if Remaining(t.chain) > 0 then More(t, le) else Forwarded(env, t, c, le)
    case SelectOf(name, pinRead, pukRead, mgmtOk) =>
      SelectedBy(env, t, TargetOf(env.aids, name), PivPins.Select(pinRead, pukRead, mgmtOk))
    case Forward(c, le) => Forwarded(env, t, c, le)
  }

  function Finished(env: Env, t: Token, confirmed: bool): (Token, seq<Byte>)
  {
    var later := t.(time := t.time + 1);
    if t.selected.None? then (later, Wire(Just(CONDITIONS)))
    else if t.selected.value.OtherApplet? then (later, Wire(env.resolve(t.time, confirmed)))
    else if !confirmed then (later.(piv := t.piv.(pending := None)), Wire(Just(SECURITY_STATUS)))
    else
      var (piv, answer) := Confirmed(env.primitive, t.piv, env.fate(t.time));
      var reply := ReplyOf(env, answer);
      (later.(piv := piv, log := t.log + [Touched] + Released(answer)),
       Wire(if reply.Some? then reply.value else Just(PRESENCE_REQUIRED)))
  }

  function Dropped(t: Token): Token { t.(selected := None, chain := Empty()) }

  function Router(env: Env): Card.Back<Token>
  {
    Card.Back((t, bytes) => Routed(env, t, bytes), (t, confirmed) => Finished(env, t, confirmed), Dropped)
  }

  // ----- what the log promises ---------------------------------------------------------------

  /** The right PIN was given in this selection, and no PIN-always key has signed since. */
  predicate PinArmed(log: seq<Label>)
  {
    log != [] &&
    match log[|log| - 1]
    case PinOk => true
    case Picked => false
    case Made(s) => !s.record.pin.PinAlways? && PinArmed(log[..|log| - 1])
    case _ => PinArmed(log[..|log| - 1])
  }

  /** Presence was confirmed in this selection. */
  predicate TouchSeen(log: seq<Label>)
  {
    log != [] &&
    match log[|log| - 1]
    case Touched => true
    case Picked => false
    case _ => TouchSeen(log[..|log| - 1])
  }

  /** The last key with a touch policy that signed in this selection caches its touch. */
  predicate CachedArmed(log: seq<Label>)
  {
    log != [] &&
    match log[|log| - 1]
    case Picked => false
    case Made(s) =>
      s.record.touch.TouchCached? || (s.record.touch.TouchNever? && CachedArmed(log[..|log| - 1]))
    case _ => CachedArmed(log[..|log| - 1])
  }

  /** The entry is the request for exactly this slot, algorithm and digest, right aligned in its width. */
  predicate RequestOf(l: Label, slot: Slot, algorithm: Byte, digest: seq<Byte>)
  {
    && l.Asked? && l.slot == slot && l.algorithm == algorithm
    && Width(algorithm, |digest|) && RightAligned(digest, l.digest)
  }

  /**
   What stands before a signature in the log: its own request, and a confirmed presence for
   it exactly when the key always wants one or caches touches and none is cached; a presence
   in this selection if touches are cached; and an unspent PIN check in this selection
   unless the key never wants the PIN.
   */
  predicate Justified(f: Primitive, log: seq<Label>, s: Signature)
  {
    var n := |log|;
    var direct := n >= 1 && RequestOf(log[n - 1], s.slot, s.record.algorithm, s.digest);
    var touched := n >= 2 && log[n - 1].Touched? && RequestOf(log[n - 2], s.slot, s.record.algorithm, s.digest);
    && (if s.record.touch.TouchAlways? || (s.record.touch.TouchCached? && !CachedArmed(log)) then touched else direct)
    && (s.record.touch.TouchCached? ==> TouchSeen(log))
    && (!s.record.pin.PinNever? ==> PinArmed(log))
    && s.bytes == f(s.record.algorithm, s.record.key, s.digest)
  }

  predicate LogOk(f: Primitive, log: seq<Label>)
  {
    forall j :: 0 <= j < |log| && log[j].Made? ==> Justified(f, log[..j], log[j].signature)
  }

  /** The request behind a pending signature is the last thing that happened. */
  predicate PendingOk(t: Token)
  {
    t.piv.pending.Some? ==>
      var p, n := t.piv.pending.value, |t.log|;
      && n > 0 && p.slot in t.piv.records
      && RequestOf(t.log[n - 1], p.slot, t.piv.records[p.slot].algorithm, p.digest)
      && (t.piv.records[p.slot].pin.PinNever? || t.piv.pins.pinVerified)
      && NeedsTouch(t.piv, t.piv.records[p.slot])
  }

  predicate Inv(f: Primitive, t: Token, held: bool)
  {
    && LogOk(f, t.log)
    && (t.piv.pins.pinVerified ==> PinArmed(t.log))
    && (t.piv.cached ==> TouchSeen(t.log)) && (t.piv.cached <==> CachedArmed(t.log))
    && (t.selected == Some(PivApplet) ==> if held then t.piv.pending.Some? && PendingOk(t) else t.piv.pending.None?)
  }

  lemma LogMore(f: Primitive, log: seq<Label>, l: Label)
    requires LogOk(f, log) && (l.Made? ==> Justified(f, log, l.signature))
    ensures LogOk(f, log + [l])
  {
    var all := log + [l];
    forall j | 0 <= j < |all| && all[j].Made?
      ensures Justified(f, all[..j], all[j].signature)
    {
      assert all[..j] == log[..j];
      if j == |log| { assert log[..j] == log; }
    }
  }

  lemma ArmedMore(log: seq<Label>, l: Label)
    ensures PinArmed(log + [l]) <==>
            l.PinOk? || (PinArmed(log) && !l.Picked? && !(l.Made? && l.signature.record.pin.PinAlways?))
    ensures TouchSeen(log + [l]) <==> l.Touched? || (TouchSeen(log) && !l.Picked?)
    ensures CachedArmed(log + [l]) <==>
            if l.Picked? then false
            else if l.Made? && !l.signature.record.touch.TouchNever? then l.signature.record.touch.TouchCached?
            else CachedArmed(log)
  {
    assert (log + [l])[..|log|] == log;
  }

  /** Without the right PIN, no PIN command turns the verified flag on. */
  lemma FlagNeedsRightPin(h: Pin.Hash, a: PivPins.Applet, c: PivPins.Command)
    requires PivPins.Next(h, a, c).0.pinVerified
    ensures RightPin(h, a, c) || (a.pinVerified && !c.Select?)
  {
    hide PivPins.EffectiveLen;
  }

  lemma PinKeeps(env: Env, t: Token, c: Command)
    requires Inv(env.primitive, t, false) && t.selected == Some(PivApplet) && c.PinCommand?
    ensures Inv(env.primitive, Applied(env, t, c).0, Applied(env, t, c).1.Touch?)
  {
    hide PivPins.Next, RightPin, LogOk, PinArmed, TouchSeen, CachedArmed;
    if c.c.Select? {
      NotRightPin(env.hash, t.piv.pins, c.c);
      assert t.log + [] + [] == t.log;
    } else {
      if PivPins.Next(env.hash, t.piv.pins, c.c).0.pinVerified {
        FlagNeedsRightPin(env.hash, t.piv.pins, c.c);
      }
      if RightPin(env.hash, t.piv.pins, c.c) {
        LogMore(env.primitive, t.log, PinOk);
        ArmedMore(t.log, PinOk);
        assert t.log + [PinOk] + [] == t.log + [PinOk];
      } else {
        assert t.log + [] + [] == t.log;
      }
    }
  }

  lemma NotRightPin(h: Pin.Hash, a: PivPins.Applet, c: PivPins.Command)
    requires c.Select?
    ensures !RightPin(h, a, c)
  {
  }

  /** Completing a justified signature keeps everything. */
  lemma CompleteKeeps(f: Primitive, t: Token, slot: Slot, digest: seq<Byte>, fate: Fate, log: seq<Label>)
    requires slot in t.piv.records && t.piv.pending.None?
    requires LogOk(f, log) && (t.piv.pins.pinVerified ==> PinArmed(log))
    requires (t.piv.cached ==> TouchSeen(log)) && (t.piv.cached <==> CachedArmed(log))
    requires var r := t.piv.records[slot]; Justified(f, log, Signature(slot, r, digest, f(r.algorithm, r.key, digest)))
    ensures var (piv, answer) := CompleteSign(f, t.piv, slot, t.piv.records[slot], digest, fate);
            Inv(f, t.(piv := piv, log := log + Released(answer)), answer.Touch?) && !answer.Touch?
  {
    hide LogOk, PinArmed, TouchSeen, CachedArmed;
    var r := t.piv.records[slot];
    var (piv, answer) := CompleteSign(f, t.piv, slot, r, digest, fate);
    if answer.Signed? {
      LogMore(f, log, Made(answer.signature));
      ArmedMore(log, Made(answer.signature));
    } else {
      assert log + [] == log;
    }
  }

  lemma PaddedIsRequest(slot: Slot, algorithm: Byte, digest: seq<Byte>)
    requires DigestLen(algorithm).Some? && |digest| <= DigestLen(algorithm).value
    ensures RequestOf(Asked(slot, algorithm, digest), slot, algorithm, Padded(algorithm, digest))
  {
  }

  /** Stored keys change only by GENERATE, with the management key proved, in that slot only. */
  lemma KeysNeedManagement(h: Pin.Hash, f: Primitive, a: Piv, c: Command, fate: Fate)
    ensures var b := Process(h, f, a, c, fate).0;
            && (c.Generate? && a.mgmt && c.saved ==> b == a.(records := a.records[c.into := c.made]))
            && (!(c.Generate? && a.mgmt && c.saved) ==> b.records == a.records)
            && (!c.Other? ==> b.mgmt == a.mgmt)
  {
    hide PivPins.Next, Padded, DigestLen, NeedsTouch;
  }

  /** A selection starts without PIN, management key, pending request and cached touch, even if it fails. */
  lemma SelectionDropsAll(h: Pin.Hash, a: Piv, c: PivPins.Command)
    requires c.Select?
    ensures var b := Selected(h, a, c).0;
            !b.pins.pinVerified && !b.mgmt && b.pending.None? && !b.cached && b.records == a.records
  {
    hide PivPins.Reload;
  }

  /** A request that is taken arms a touch or signs at once; any other changes nothing. */
  lemma SignIs(h: Pin.Hash, f: Primitive, a: Piv, c: Command, fate: Fate)
    requires c.Sign?
    ensures var r := Process(h, f, a, c, fate);
            if Taken(a, c, fate) then
              var padded, key := Padded(c.algorithm, c.digest.value), a.records[c.slot.value];
              r == if NeedsTouch(a, key) then (a.(pending := Some(Pending(c.slot.value, padded))), Touch)
                   else CompleteSign(f, a, c.slot.value, key, padded, fate)
            else r.0 == a && r.1.Status?
  {
    hide NeedsTouch, CompleteSign, Padded, DigestLen;
  }

  lemma SignKeeps(env: Env, t: Token, c: Command)
    requires Inv(env.primitive, t, false) && t.selected == Some(PivApplet) && c.Sign?
    ensures Inv(env.primitive, Applied(env, t, c).0, Applied(env, t, c).1.Touch?)
  {
    hide LogOk, PinArmed, TouchSeen, CachedArmed, CompleteSign, Padded, DigestLen, Process;
    var f, fate := env.primitive, env.fate(t.time);
    SignIs(env.hash, f, t.piv, c, fate);
    if Taken(t.piv, c, fate) {
      var asked := Asked(c.slot.value, c.algorithm, c.digest.value);
      var log := t.log + [asked];
      LogMore(f, t.log, asked);
      ArmedMore(t.log, asked);
      var r := t.piv.records[c.slot.value];
      var padded := Padded(r.algorithm, c.digest.value);
      PaddedIsRequest(c.slot.value, r.algorithm, c.digest.value);
      hide RequestOf;
      if NeedsTouch(t.piv, r) {
        assert log + [] == log;
      } else {
        CompleteKeeps(f, t, c.slot.value, padded, fate, log);
      }
    } else {
      assert t.log + [] + [] == t.log;
    }
  }

  lemma AppliedKeeps(env: Env, t: Token, c: Command)
    requires Inv(env.primitive, t, false) && t.selected == Some(PivApplet)
    ensures Inv(env.primitive, Applied(env, t, c).0, Applied(env, t, c).1.Touch?)
  {
    hide LogOk, PinArmed, TouchSeen, CachedArmed, SignStep;
    match c {
      case PinCommand(_) => PinKeeps(env, t, c);
      case Sign(_, _, _) => SignKeeps(env, t, c);
      case Generate(_, _, _, _) => assert t.log + [] + [] == t.log;
      case Other(_, _) => assert t.log + [] + [] == t.log;
    }
  }

  lemma SelectedKeeps(env: Env, t: Token, c: PivPins.Command)
    requires LogOk(env.primitive, t.log) && c.Select?
    ensures var piv := Selected(env.hash, t.piv, c).0;
            Inv(env.primitive, t.(piv := piv, selected := Some(PivApplet), log := t.log + [Picked]), false)
  {
    hide LogOk, PinArmed, TouchSeen, CachedArmed, PivPins.Reload;
    LogMore(env.primitive, t.log, Picked);
    ArmedMore(t.log, Picked);
  }

  /** Handing an answer out in pieces touches nothing the invariant speaks of. */
  lemma ChainedKeeps(f: Primitive, t: Token, reply: Option<Reply>, le: nat)
    requires Inv(f, t, reply.None?)
    ensures Inv(f, Chained(t, reply, le).0, Chained(t, reply, le).1.Presence?)
  {
    hide LogOk, PinArmed, TouchSeen, CachedArmed, Begin;
  }

  lemma ForwardedKeeps(env: Env, t: Token, c: Command, le: nat)
    requires Inv(env.primitive, t, false)
    ensures Inv(env.primitive, Forwarded(env, t, c, le).0, Forwarded(env, t, c, le).1.Presence?)
  {
    hide LogOk, PinArmed, TouchSeen, CachedArmed, Applied, Chained;
    var later := t.(time := t.time + 1);
    if t.selected == Some(PivApplet) {
      AppliedKeeps(env, t, c);
      var (next, answer) := Applied(env, t, c);
      ChainedKeeps(env.primitive, next, ReplyOf(env, answer), le);
    } else if t.selected.Some? {
      ChainedKeeps(env.primitive, later, env.other(t.time), le);
    }
  }

  /** A command taken while nothing is held. */
  lemma RoutedKeeps(env: Env, t: Token, bytes: seq<Byte>)
    requires Inv(env.primitive, t, false)
    ensures Inv(env.primitive, Routed(env, t, bytes).0, Routed(env, t, bytes).1.Presence?)
  {
    hide LogOk, PinArmed, TouchSeen, CachedArmed, Selected, Forwarded, GetResponse, TargetOf;
    match env.parse(t.time, bytes) {
      case SelectOf(name, pinRead, pukRead, mgmtOk) =>
        if TargetOf(env.aids, name) == Some(PivApplet) {
          SelectedKeeps(env, t, PivPins.Select(pinRead, pukRead, mgmtOk));
        }
      case Forward(c, le) => ForwardedKeeps(env, t, c, le);
      case SendRemaining(c, le) => ForwardedKeeps(env, t, c, le);
      case _ =>
    }
  }

  /** The resolution of a held command. */
  lemma FinishedKeeps(env: Env, t: Token, confirmed: bool)
    requires Inv(env.primitive, t, true)
    ensures Inv(env.primitive, Finished(env, t, confirmed).0, false)
  {
    hide LogOk, PinArmed, TouchSeen, CachedArmed, CompleteSign, Padded, DigestLen;
    if confirmed && t.selected == Some(PivApplet) {
      var f, fate := env.primitive, env.fate(t.time);
      var log := t.log + [Touched];
      LogMore(f, t.log, Touched);
      ArmedMore(t.log, Touched);
      var p := t.piv.pending;
      if p.Some? && fate.first {
        var b := t.piv.(pending := None);
        CompleteKeeps(f, t.(piv := b), p.value.slot, p.value.digest, fate, log);
      } else {
        assert log + [] == log;
      }
    }
  }

  // ----- every run of the card ---------------------------------------------------------------

  predicate CardInv(env: Env, c: Card.Card<Token>) { Inv(env.primitive, c.session.router, c.waiting.Some?) }

  lemma DroppedKeeps(f: Primitive, t: Token, held: bool)
    requires Inv(f, t, held)
    ensures Inv(f, Dropped(t), false)
  {
    hide LogOk, PinArmed, TouchSeen, CachedArmed;
  }

  lemma FrameKeeps(env: Env, s: Card.Session<Token>, frame: seq<Byte>)
    requires Inv(env.primitive, s.router, false)
    ensures var (s', handled) := Card.HandleFrame(Router(env), s, frame);
            Inv(env.primitive, s'.router, handled.Hold?)
  {
    hide Inv, Routed, Finished, Dropped;
    DroppedKeeps(env.primitive, s.router, false);
    var h := Ccid.ParseHeader(frame);
    if h.Some? && Ccid.ParseRequest(h.value).Some? && Ccid.ParseRequest(h.value).value.XfrBlock? {
      RoutedKeeps(env, s.router, Ccid.ParseRequest(h.value).value.data);
    }
  }

  lemma PollKeeps(env: Env, cap: nat, c: Card.Card<Token>, e: Card.Event)
    requires cap >= Ccid.HEADER_LEN && CardInv(env, c) && e.Poll?
    ensures CardInv(env, Card.Next(Router(env), cap, c, e).0)
  {
    hide Inv, Card.HandleFrame, Router;
    var back, scan := Router(env), Ccid.NextFrame(c.buffer, cap);
    if c.waiting.None? && scan.Whole? {
      FrameKeeps(env, c.session, c.buffer[..scan.length]);
      var (session, handled) := Card.HandleFrame(back, c.session, c.buffer[..scan.length]);
      assert Inv(env.primitive, session.router, handled.Hold?);
    }
  }

  lemma CardNextKeeps(env: Env, cap: nat, c: Card.Card<Token>, e: Card.Event)
    requires cap >= Ccid.HEADER_LEN && CardInv(env, c)
    ensures CardInv(env, Card.Next(Router(env), cap, c, e).0)
  {
    hide Inv, Card.HandleFrame, Finished, Dropped;
    match e {
      case Poll(_) => PollKeeps(env, cap, c, e);
      case Resolve(confirmed, _) =>
        if c.waiting.Some? { FinishedKeeps(env, c.session.router, confirmed); }
      case Reset => DroppedKeeps(env.primitive, c.session.router, c.waiting.Some?);
      case Feed(_) =>
    }
  }

  lemma {:induction false} CardRunKeeps(
    env: Env, cap: nat, log: Card.Log<Token>, c: Card.Card<Token>, events: seq<Card.Event>)
    requires cap >= Ccid.HEADER_LEN && CardInv(env, c)
    ensures CardInv(env, Card.Run(Router(env), cap, log, c, events).1)
    decreases |events|
  {
    hide CardInv, Card.Next, Card.Logged;
    if events != [] {
      CardNextKeeps(env, cap, c, events[0]);
      CardRunKeeps(env, cap, Card.Logged(Router(env), cap, log, c, events[0]),
                   Card.Next(Router(env), cap, c, events[0]).0, events[1..]);
    }
  }

  /** The token at power-up, with any keys in its store. */
  function BootToken(records: map<Slot, KeyRecord>): Token
  {
    Token(Piv(PivPins.Boot(), false, None, false, records), None, Empty(), 0, [])
  }

  /**
   Over every run of the card, whatever the host sends and the store answers, every
   signature is justified by what stands before it in the log.
   */
  lemma EverySignatureIsJustified(env: Env, cap: nat, records: map<Slot, KeyRecord>, events: seq<Card.Event>)
    requires cap >= Ccid.HEADER_LEN
    ensures LogOk(env.primitive, Card.BootRun(Router(env), cap, BootToken(records), events).1.session.router.log)
  {
    hide Card.Run;
    CardRunKeeps(env, cap, Card.Fresh(Card.Session(BootToken(records), false)), Card.Boot(BootToken(records)), events);
  }

  lemma AlignedNumber(padded: seq<Byte>, digest: seq<Byte>)
    requires RightAligned(padded, digest)
    ensures FromBE(padded) == FromBE(digest)
  {
    var n := |padded| - |digest|;
    assert padded == Zeros(n) + digest;
    LeadingZeros(n, digest);
  }

  /**
   Over every run of the card, what a signature is made over: as a number it is the digest
   of the request before it, in the width of the algorithm, and the signature is the
   primitive on it under the key of the requested slot.
   */
  lemma SignedNumberIsRequested(env: Env, cap: nat, records: map<Slot, KeyRecord>, events: seq<Card.Event>, j: nat)
    requires cap >= Ccid.HEADER_LEN
    requires var log := Card.BootRun(Router(env), cap, BootToken(records), events).1.session.router.log;
             j < |log| && log[j].Made?
    ensures var log := Card.BootRun(Router(env), cap, BootToken(records), events).1.session.router.log;
            var s := log[j].signature;
            exists i :: 0 <= i < j && (i == j - 1 || (i == j - 2 && log[j - 1].Touched?)) && log[i].Asked?
              && log[i].slot == s.slot && log[i].algorithm == s.record.algorithm
              && Width(s.record.algorithm, |s.digest|) && FromBE(s.digest) == FromBE(log[i].digest)
              && RightAligned(s.digest, log[i].digest)
              && s.bytes == env.primitive(s.record.algorithm, s.record.key, s.digest)
  {
    EverySignatureIsJustified(env, cap, records, events);
    hide Card.BootRun, PinArmed, TouchSeen, CachedArmed, Width, RightAligned;
    var log := Card.BootRun(Router(env), cap, BootToken(records), events).1.session.router.log;
    var s := log[j].signature;
    assert Justified(env.primitive, log[..j], s);
    var i := if RequestOf(log[j - 1], s.slot, s.record.algorithm, s.digest) then j - 1 else j - 2;
    AlignedNumber(s.digest, log[i].digest);
  }

  /**
   Over every run of the card, between two signatures by PIN-always keys the right PIN was
   given, in the selection of the second.
   */
  lemma PinCheckBetween(
    env: Env, cap: nat, records: map<Slot, KeyRecord>, events: seq<Card.Event>, i: nat, j: nat)
    requires cap >= Ccid.HEADER_LEN
    requires var log := Card.BootRun(Router(env), cap, BootToken(records), events).1.session.router.log;
             && i < j < |log| && log[i].Made? && log[j].Made?
             && log[i].signature.record.pin.PinAlways? && log[j].signature.record.pin.PinAlways?
    ensures var log := Card.BootRun(Router(env), cap, BootToken(records), events).1.session.router.log;
            exists k :: i < k < j && log[k].PinOk? && forall m :: k < m < j ==> !log[m].Picked?
  {
    EverySignatureIsJustified(env, cap, records, events);
    hide Card.BootRun;
    var log := Card.BootRun(Router(env), cap, BootToken(records), events).1.session.router.log;
    assert Justified(env.primitive, log[..j], log[j].signature);
    ArmedWitness(log, i, j);
  }

  lemma {:induction false} ArmedWitness(log: seq<Label>, i: nat, j: nat)
    requires i < j <= |log| && PinArmed(log[..j])
    requires log[i].Made? && log[i].signature.record.pin.PinAlways?
    ensures exists k :: i < k < j && log[k].PinOk? && forall m :: k < m < j ==> !log[m].Picked?
    decreases j
  {
    assert log[..j][|log[..j]| - 1] == log[j - 1];
    if log[j - 1].PinOk? {
      assert i < j - 1;
    } else {
      assert log[..j][..j - 1] == log[..j - 1];
      ArmedWitness(log, i, j - 1);
      var k :| i < k < j - 1 && log[k].PinOk? && forall m :: k < m < j - 1 ==> !log[m].Picked?;
    }
  }

  /**
   A held PIV frame always has its request pending, so a confirmed presence signs exactly
   what was asked, once the store and the primitive play along.
   */
  lemma ConfirmedPresenceSigns(env: Env, cap: nat, records: map<Slot, KeyRecord>, events: seq<Card.Event>)
    requires cap >= Ccid.HEADER_LEN
    requires var c := Card.BootRun(Router(env), cap, BootToken(records), events).1;
             var t := c.session.router;
             && c.waiting.Some? && t.selected == Some(PivApplet) && env.fate(t.time) == Fate(true, true, true)
    ensures var t := Card.BootRun(Router(env), cap, BootToken(records), events).1.session.router;
            var (t', bytes) := Finished(env, t, true);
            && t.piv.pending.Some? && t.log != [] && t.log[|t.log| - 1].Asked?
            && t.log[|t.log| - 1].slot in t.piv.records
            && var asked := t.log[|t.log| - 1];
               var r := t.piv.records[asked.slot];
               && RequestOf(asked, asked.slot, r.algorithm, t.piv.pending.value.digest)
               && var s := Signature(asked.slot, r, t.piv.pending.value.digest,
                                     env.primitive(r.algorithm, r.key, t.piv.pending.value.digest));
                  t'.log == t.log + [Touched] + [Made(s)] && bytes == Wire(Reply(env.wrap(s.bytes), OK))
  {
    hide Card.Run;
    CardRunKeeps(env, cap, Card.Fresh(Card.Session(BootToken(records), false)), Card.Boot(BootToken(records)), events);
    var t := Card.BootRun(Router(env), cap, BootToken(records), events).1.session.router;
    assert PendingOk(t);
  }

  /**
   Why held frames matter: driven without them, the applet would let one PIN check pay
   for two signatures by PIN-always keys, the second one while a touch is outstanding.
   */
  lemma HoldingFramesMatters(f: Primitive, a: Piv, first: Slot, second: Slot, d: seq<Byte>, fate: Fate)
    requires first in a.records && second in a.records && fate == Fate(true, true, true)
    requires a.pins.pinVerified && |d| == 32
    requires a.records[first] == KeyRecord(ALG_ECCP256, PinAlways, TouchAlways, a.records[first].key)
    requires a.records[second] == KeyRecord(ALG_ECCP256, PinAlways, TouchNever, a.records[second].key)
    ensures var (b, touch) := SignStep(f, a, Sign(Some(first), ALG_ECCP256, Some(d)), fate);
            var (c, one) := SignStep(f, b, Sign(Some(second), ALG_ECCP256, Some(d)), fate);
            var (e, two) := Confirmed(f, c, fate);
            touch.Touch? && one.Signed? && !c.pins.pinVerified && two.Signed?
  {
  }

  // ----- the applet object -------------------------------------------------------------------

  class Signer {
    var pins: PivPins.Applet
    var mgmt: bool
    var pending: Option<Pending>
    var cached: bool
    var records: map<Slot, KeyRecord>

    function View(): Piv
      reads this
    {
      Piv(pins, mgmt, pending, cached, records)
    }

    constructor (records: map<Slot, KeyRecord>)
      ensures View() == BootToken(records).piv
    {
      pins, mgmt, pending, cached, this.records := PivPins.Boot(), false, None, false, records;
    }

    method Complete(f: Primitive, slot: Slot, r: KeyRecord, digest: seq<Byte>, fate: Fate) returns (answer: Answer)
      modifies this
      ensures (View(), answer) == CompleteSign(f, old(View()), slot, r, digest, fate)
    {
      var width := DigestLen(r.algorithm);
      if width.None? { return Status(FUNCTION_NOT_SUPPORTED); }
      if !fate.second || |digest| != width.value { return Status(REFERENCED_DATA_NOT_FOUND); }
      if !fate.signs { return Status(NO_DIAGNOSIS); }
      if r.pin.PinAlways? { pins := pins.(pinVerified := false); }
      match r.touch {
        case TouchCached => cached := true;
        case TouchAlways => cached := false;
        case TouchNever =>
      }
      return Signed(Signature(slot, r, digest, f(r.algorithm, r.key, digest)));
    }

    method SignCommand(f: Primitive, c: Command, fate: Fate) returns (answer: Answer)
      requires c.Sign?
      modifies this
      ensures (View(), answer) == SignStep(f, old(View()), c, fate)
    {
      hide CompleteSign;
      if c.slot.None? { return Status(INCORRECT_PARAMETERS); }
      if !fate.first || c.slot.value !in records { return Status(REFERENCED_DATA_NOT_FOUND); }
      var r := records[c.slot.value];
      var width := DigestLen(r.algorithm);
      if r.algorithm != c.algorithm || width.None? { return Status(INCORRECT_PARAMETERS); }
      if !r.pin.PinNever? && !pins.pinVerified { return Status(SECURITY_STATUS); }
      if c.digest.None? || |c.digest.value| > width.value { return Status(WRONG_DATA); }
      var padded := Padded(r.algorithm, c.digest.value);
      var touch := match r.touch case TouchNever => false case TouchAlways => true case TouchCached => !cached;
      if touch {
        pending := Some(Pending(c.slot.value, padded));
        return Touch;
      }
      answer := Complete(f, c.slot.value, r, padded, fate);
    }

    method ConfirmPresence(f: Primitive, fate: Fate) returns (answer: Answer)
      modifies this
      ensures (View(), answer) == Confirmed(f, old(View()), fate)
    {
      hide CompleteSign;
      var p := pending;
      pending := None;
      if p.None? { return Status(CONDITIONS); }
      if !fate.first || p.value.slot !in records { return Status(REFERENCED_DATA_NOT_FOUND); }
      answer := Complete(f, p.value.slot, records[p.value.slot], p.value.digest, fate);
    }

    method SelectApplet(h: Pin.Hash, c: PivPins.Command) returns (sw: Sw)
      requires c.Select?
      modifies this
      ensures (View(), sw) == Selected(h, old(View()), c)
    {
      hide PivPins.Next;
      mgmt, pending, cached := false, None, false;
      var (loaded, answer) := PivPins.Next(h, pins, c);
      pins := loaded;
      return answer;
    }

    method ProcessCommand(h: Pin.Hash, f: Primitive, c: Command, fate: Fate) returns (answer: Answer)
      modifies this
      ensures (View(), answer) == Process(h, f, old(View()), c, fate)
    {
      hide PivPins.Next, SignStep;
      match c {
        case PinCommand(p) =>
          if p.Select? { return Status(INCORRECT_PARAMETERS); }
          var (next, sw) := PivPins.Next(h, pins, p);
          pins := next;
          return Status(sw);
        case Sign(_, _, _) => answer := SignCommand(f, c, fate);
        case Generate(slot, made, point, saved) =>
          if !mgmt { return Status(SECURITY_STATUS); }
          if !saved { return Status(NOT_ENOUGH_MEMORY); }
          records := records[slot := made];
          return Given(Reply(point, OK));
        case Other(m, reply) =>
          mgmt := m;
          return Given(reply);
      }
    }
  }

  /** The router with its PIV applet; every command goes to at most one selected applet. */
  class Routing {
    const piv: Signer
    const chainer: Chainer
    var selected: Option<Target>
    var time: nat
    ghost var log: seq<Label>

    ghost predicate Valid()
      reads this, chainer
    {
      chainer.Valid() && chainer.cap == RESPONSE_BYTES
    }

    ghost function View(): Token
      requires Valid()
      reads this, piv, chainer
    {
      Token(piv.View(), selected, chainer.View(), time, log)
    }

    constructor (records: map<Slot, KeyRecord>)
      ensures Valid() && View() == BootToken(records) && fresh(piv) && fresh(chainer)
    {
      piv := new Signer(records);
      chainer := new Chainer(RESPONSE_BYTES);
      selected, time, log := None, 0, [];
    }

    /** The first applet whose identifier starts the requested name. */
    method FindApplet(aids: seq<seq<Byte>>, name: seq<Byte>) returns (i: Option<nat>)
      ensures i == FirstPrefix(aids, name)
    {
      var k := 0;
      while k < |aids|
        invariant k <= |aids| && forall j :: 0 <= j < k ==> !(aids[j] <= name)
      {
        if aids[k] <= name { return Some(k); }
        k := k + 1;
      }
      return None;
    }

    method HandOut(reply: Option<Reply>, le: nat) returns (verdict: Card.Verdict)
      requires Valid()
      modifies this, chainer
      ensures Valid() && (View(), verdict) == Chained(old(View()), reply, le)
    {
      hide Begin;
      if reply.None? { return Card.Presence; }
      if reply.value.sw != OK { return Says(reply.value); }
      var piece := chainer.Start(reply.value.data, le);
      return Says(piece);
    }

    method SelectName(env: Env, name: seq<Byte>, load: PivPins.Command) returns (verdict: Card.Verdict)
      requires Valid() && load.Select?
      modifies this, piv, chainer
      ensures Valid() && (View(), verdict) == SelectedBy(env, old(View()), TargetOf(env.aids, name), load)
    {
      hide Selected, FirstPrefix;
      var now := time;
      time := now + 1;
      chainer.Clear();
      var i := FindApplet(env.aids, name);
      if i.None? {
        selected := None;
        return Says(Just(FILE_NOT_FOUND));
      }
      if env.aids[i.value] != PIV_AID {
        selected := Some(OtherApplet(i.value));
        var reply := env.other(now);
        return if reply.None? then Card.Presence else Says(reply.value);
      }
      selected := Some(PivApplet);
      var sw := piv.SelectApplet(env.hash, load);
      log := log + [Picked];
      return Says(if sw == OK then Reply(env.fci, OK) else Just(sw));
    }

    method ForwardCommand(env: Env, c: Command, le: nat) returns (verdict: Card.Verdict)
      requires Valid()
      modifies this, piv, chainer
      ensures Valid() && (View(), verdict) == Forwarded(env, old(View()), c, le)
    {
      hide Process, RightPin, Taken, Begin;
      var now := time;
      time := now + 1;
      if selected.None? {
        return Says(Just(CONDITIONS));
      }
      if selected.value.OtherApplet? {
        verdict := HandOut(env.other(now), le);
        return;
      }
      ghost var noted := Before(env.hash, piv.View(), c, env.fate(now));
      var answer := piv.ProcessCommand(env.hash, env.primitive, c, env.fate(now));
      log := log + noted + Released(answer);
      verdict := HandOut(ReplyOf(env, answer), le);
    }

    method RouteCommand(env: Env, bytes: seq<Byte>) returns (verdict: Card.Verdict)
      requires Valid()
      modifies this, piv, chainer
      ensures Valid() && (View(), verdict) == Routed(env, old(View()), bytes)
    {
      hide Forwarded, SelectedBy, TargetOf, GetResponse;
      match env.parse(time, bytes) {
        case Bad(sw) =>
          time := time + 1;
          return Says(Just(sw));
        case SelectOf(name, pinRead, pukRead, mgmtOk) =>
          verdict := SelectName(env, name, PivPins.Select(pinRead, pukRead, mgmtOk));
        case Forward(c, le) =>
          verdict := ForwardCommand(env, c, le);
        case GetMore(le) =>
          time := time + 1;
          var piece := chainer.Resume(le);
          return Says(piece);
        case SendRemaining(c, le) =>
          if chainer.delivered < |chainer.pending| {
            time := time + 1;
            var piece := chainer.Resume(le);
            return Says(piece);
          }
          verdict := ForwardCommand(env, c, le);
      }
    }

    method FinishPresence(env: Env, confirmed: bool) returns (bytes: seq<Byte>)
      requires Valid()
      modifies this, piv
      ensures Valid() && (View(), bytes) == Finished(env, old(View()), confirmed)
    {
      hide Confirmed;
      var now := time;
      time := now + 1;
      if selected.None? {
        return Wire(Just(CONDITIONS));
      }
      if selected.value.OtherApplet? {
        return Wire(env.resolve(now, confirmed));
      }
      if !confirmed {
        piv.pending := None;
        return Wire(Just(SECURITY_STATUS));
      }
      var answer := piv.ConfirmPresence(env.primitive, env.fate(now));
      log := log + [Touched] + Released(answer);
      var reply := ReplyOf(env, answer);
      return Wire(if reply.Some? then reply.value else Just(PRESENCE_REQUIRED));
    }

    method ResetSelection()
      requires Valid()
      modifies this, chainer
      ensures Valid() && View() == Dropped(old(View()))
    {
      selected := None;
      chainer.Clear();
    }
  }
}
