/**
 What the OATH codes on the wire are, said without the functions that compute them: the
 MAC of the counter or of the host's challenge, whole or dynamically truncated as in
 section 5.3 of RFC 4226. And that a stored credential keeps its key, so that its HOTP
 codes differ until the counter wraps.
 */
module OathCodes {
  import opened Wrappers
  import opened Bytes
  import opened StatusWords
  import opened Oath
  import OathState
  import Keyed

  // ----- one code ----------------------------------------------------------------------------

  /** `bytes` is the code over the message `m`: the digit count, then the MAC or 31 bits of it. */
  predicate IsCode(mac: Mac, c: Credential, m: seq<Byte>, truncated: bool, bytes: seq<Byte>)
  {
    && |m| == 8 && mac.hmac(c.algorithm, c.secret, m).Some?
    && var d := mac.hmac(c.algorithm, c.secret, m).value;
       if !truncated then bytes == [c.digits] + d
       else
         && d != [] && d[|d| - 1] % 16 + 4 <= |d| && |bytes| == 5 && bytes[0] == c.digits
         && var o := d[|d| - 1] % 16;
            FromBE(bytes[1..]) == FromBE(d[o..o + 4]) % 0x8000_0000
  }

  /** The message of a credential: its counter as 64 bits for HOTP (0x10), the challenge otherwise. */
  predicate IsMessage(c: Credential, challenge: seq<Byte>, m: seq<Byte>)
  {
    |m| == 8 && if c.kind == 0x10 then FromBE(m) == c.counter else m == challenge
  }

  lemma MessageIs(c: Credential, challenge: seq<Byte>, m: seq<Byte>)
    requires IsMessage(c, challenge, m)
    ensures Message(c, challenge) == Some(m)
  {
    if c.kind == 0x10 { BEUnique(m, c.counter, 8); }
    hide ToBE;
  }

  /** Clearing the top bit of four octets keeps their number modulo 2^31. */
  lemma TopBitCleared(s: seq<Byte>, t: seq<Byte>)
    requires |s| == 4 && t == [s[0] % 128, s[1], s[2], s[3]]
    ensures FromBE(t) == FromBE(s) % 0x8000_0000
  {
    FourOctets(s);
    FourOctets(t);
    hide FromBE;
    var a: int := s[0];
    var low := 0x1_0000 * (s[1] as int) + 0x100 * (s[2] as int) + s[3];
    assert 0x100_0000 * a == 0x8000_0000 * (a / 128) + 0x100_0000 * (a % 128);
    assert FromBE(s) == 0x8000_0000 * (a / 128) + FromBE(t);
    DivUnique(FromBE(s), 0x8000_0000, a / 128, FromBE(t));
  }

  lemma TruncatedIs(d: Digest)
    requires d != [] && d[|d| - 1] % 16 + 4 <= |d|
    ensures Truncated(d).Some? && |Truncated(d).value| == 4
    ensures var o := d[|d| - 1] % 16;
            FromBE(Truncated(d).value) == FromBE(d[o..o + 4]) % 0x8000_0000
  {
    var o := d[|d| - 1] % 16;
    TopBitCleared(d[o..o + 4], Truncated(d).value);
  }

  /** What is computed is the code over the message, and there is one whenever the MAC gives it. */
  lemma ComputeIsCode(mac: Mac, c: Credential, challenge: seq<Byte>, truncated: bool, m: seq<Byte>)
    requires IsMessage(c, challenge, m)
    ensures Compute(mac, c, challenge, truncated).Some? ==>
      IsCode(mac, c, m, truncated, Compute(mac, c, challenge, truncated).value)
    ensures Compute(mac, c, challenge, truncated).Some? <==>
      && mac.hmac(c.algorithm, c.secret, m).Some?
      && var d := mac.hmac(c.algorithm, c.secret, m).value;
         !truncated || (d != [] && d[|d| - 1] % 16 + 4 <= |d|)
  {
    MessageIs(c, challenge, m);
    hide Message, FromBE;
    if mac.hmac(c.algorithm, c.secret, m).Some? && truncated {
      var d := mac.hmac(c.algorithm, c.secret, m).value;
      if d != [] && d[|d| - 1] % 16 + 4 <= |d| {
        TruncatedIs(d);
        var code := [c.digits] + Truncated(d).value;
        assert code[1..] == Truncated(d).value;
      }
    }
  }

  /** The counter of a stored credential, as its message. */
  function CounterMessage(c: Credential): (m: seq<Byte>)
    requires c.counter < U32
    ensures |m| == 8 && FromBE(m) == c.counter
  {
    PowerTable();
    BERoundTrip(c.counter, 8);
    ToBE(c.counter, 8)
  }

  // ----- every reply -------------------------------------------------------------------------

  /** One computation: the code over the message and nothing else, once an HOTP save is done. */
  lemma CalculatedReply(
    mac: Mac, w: World, index: nat, challenge: seq<Byte>, truncated: bool, save: Save, m: seq<Byte>, d: Digest)
    requires index < |w.applet.creds| && IsMessage(w.applet.creds[index].cred, challenge, m)
    requires var c := w.applet.creds[index].cred;
             mac.hmac(c.algorithm, c.secret, m) == Some(d) && (c.kind == 0x10 ==> save.Done?)
    ensures var e := w.applet.creds[index];
            var reply := Calculated(mac, w, index, challenge, truncated, save).1;
            if !truncated then reply == Codes([Released(e, false, [e.cred.digits] + d)])
            else if d != [] && d[|d| - 1] % 16 + 4 <= |d| then
              && reply.Codes? && |reply.codes| == 1 && reply.codes[0].entry == e && |reply.codes[0].bytes| == 5
              && reply.codes[0].bytes[0] == e.cred.digits
              && var o := d[|d| - 1] % 16;
                 FromBE(reply.codes[0].bytes[1..]) == FromBE(d[o..o + 4]) % 0x8000_0000
            else reply == Status(NO_DIAGNOSIS)
  {
    ComputeIsCode(mac, w.applet.creds[index].cred, challenge, truncated, m);
    hide Compute, FromBE;
  }

  /** The challenge a command computes TOTP codes over, on a loaded applet. */
  function HostChallenge(a: Applet, c: Command): seq<Byte>
  {
    match c
    case Calculate(_, challenge, _, _) => challenge
    case CalculateAll(common, _) => if common.Some? then common.value else []
    case Confirm(_) => if a.pending.Some? then a.pending.value.challenge else []
    case _ => []
  }

  /** A released code is the code of its credential over its counter, or over this challenge. */
  ghost predicate IsRelease(mac: Mac, challenge: seq<Byte>, x: Released)
  {
    exists m :: IsMessage(x.entry.cred, challenge, m) && IsCode(mac, x.entry.cred, m, x.truncated, x.bytes)
  }

  lemma ComputedIsRelease(mac: Mac, e: Entry, challenge: seq<Byte>, truncated: bool)
    requires e.cred.counter < U32 && Compute(mac, e.cred, challenge, truncated).Some?
    ensures IsRelease(mac, challenge, Released(e, truncated, Compute(mac, e.cred, challenge, truncated).value))
  {
    var m := if e.cred.kind == 0x10 then CounterMessage(e.cred) else challenge;
    assert IsMessage(e.cred, challenge, m) by {
      hide FromBE, ToBE;
      assert |m| == 8 by { assert e.cred.kind != 0x10 ==> Message(e.cred, challenge).Some?; }
    }
    ComputeIsCode(mac, e.cred, challenge, truncated, m);
  }

  lemma {:induction false} ListedAreReleases(
    mac: Mac, es: seq<Entry>, challenge: seq<Byte>, truncated: bool, x: Released)
    requires forall i :: 0 <= i < |es| ==> es[i].cred.counter < U32
    requires AllCodes(mac, es, challenge, truncated).Listed? && x in AllCodes(mac, es, challenge, truncated).codes
    ensures IsRelease(mac, challenge, x) && x.truncated == truncated
    decreases |es|
  {
    hide IsRelease, Compute;
    if es != [] {
      var front, e := es[..|es| - 1], es[|es| - 1];
      var l := AllCodes(mac, front, challenge, truncated);
      if x in l.codes {
        ListedAreReleases(mac, front, challenge, truncated, x);
      } else {
        ComputedIsRelease(mac, e, challenge, truncated);
      }
    }
  }

  lemma CountersFit(es: seq<Entry>, serials: nat)
    requires ListOk(es, serials)
    ensures forall i :: 0 <= i < |es| ==> es[i].cred.counter < U32
  {
    forall i | 0 <= i < |es|
      ensures es[i].cred.counter < U32
    {
      assert EntryOk(es[i], serials);
    }
  }

  /** Every code any command releases, from any state a run can reach, is such a code. */
  lemma EveryReleaseIsCode(mac: Mac, w: World, e: Event, request: Request, floors: Floors, x: Released)
    requires Inv(w, request, floors)
    requires Next(mac, w, e).1.Codes? && x in Next(mac, w, e).1.codes
    ensures IsRelease(mac, HostChallenge(Ready(w, e.readable).applet, e.command), x)
  {
    hide IsRelease, Compute, Good, AllCodes, Find;
    ReadyKeeps(w, e.readable, request, floors);
    var v := Ready(w, e.readable);
    InvCounters(v, request, floors);
    ProcessReleases(mac, v, e.command, x);
  }

  lemma InvCounters(w: World, request: Request, floors: Floors)
    requires Inv(w, request, floors)
    ensures forall i :: 0 <= i < |w.applet.creds| ==> w.applet.creds[i].cred.counter < U32
  {
    CountersFit(w.applet.creds, w.serials);
  }

  lemma CalculatedReleases(
    mac: Mac, w: World, index: nat, challenge: seq<Byte>, truncated: bool, save: Save, x: Released)
    requires index < |w.applet.creds| && w.applet.creds[index].cred.counter < U32
    requires Calculated(mac, w, index, challenge, truncated, save).1.Codes?
    requires x in Calculated(mac, w, index, challenge, truncated, save).1.codes
    ensures IsRelease(mac, challenge, x) && x.entry == w.applet.creds[index] && x.truncated == truncated
  {
    hide IsRelease, Compute;
    ComputedIsRelease(mac, w.applet.creds[index], challenge, truncated);
  }

  lemma ProcessReleases(mac: Mac, w: World, c: Command, x: Released)
    requires !c.Select? && !c.Deny? && !c.PowerCycle?
    requires forall i :: 0 <= i < |w.applet.creds| ==> w.applet.creds[i].cred.counter < U32
    requires Process(mac, w, c).1.Codes? && x in Process(mac, w, c).1.codes
    ensures IsRelease(mac, HostChallenge(w.applet, c), x) && x.entry in w.applet.creds
  {
    hide IsRelease, Compute, AllCodes, Calculated;
    var creds := w.applet.creds;
    match c {
      case Calculate(name, challenge, truncated, save) =>
        CalculatedReleases(mac, w, Find(creds, name.value).value, challenge, truncated, save, x);
      case CalculateAll(common, truncated) =>
        ListedAreReleases(mac, creds, common.value, truncated, x);
      case Confirm(save) =>
        var p := w.applet.pending.value;
        CalculatedReleases(mac, w.(applet := w.applet.(pending := None)), p.index, p.challenge, p.truncated, save, x);
      case _ =>
    }
  }

  // ----- touch and access --------------------------------------------------------------------

  /**
   CALCULATE asks for a touch exactly for the property values 2 and 3, and then keeps the
   challenge right aligned in eight octets.
   */
  lemma TouchPropertyAsks(
    mac: Mac, w: World, name: seq<Byte>, challenge: seq<Byte>, truncated: bool, save: Save, i: nat)
    requires Authorised(w.applet) && Find(w.applet.creds, name) == Some(i) && |challenge| <= 8
    requires w.applet.creds[i].cred.property < 4
    ensures var (v, reply) := CalculateStep(mac, w, Some(name), challenge, truncated, save);
            && (reply == Status(PRESENCE_REQUIRED) <==> w.applet.creds[i].cred.property in {2, 3})
            && (reply == Status(PRESENCE_REQUIRED) ==>
                  && v.applet.pending.Some? && v.applet.pending.value.index == i
                  && v.applet.pending.value.truncated == truncated
                  && var p := v.applet.pending.value.challenge;
                     |p| == 8 && p[8 - |challenge|..] == challenge && FromBE(p) == FromBE(challenge))
  {
    hide Find, Calculated, FromBE, Padded, NeedsTouch;
    CalculatedSays(mac, w, i, challenge, truncated, save);
    PaddedIs(challenge);
    TouchProperty(w.applet.creds[i].cred);
  }

  lemma PaddedIs(challenge: seq<Byte>)
    requires |challenge| <= 8
    ensures var p := Padded(challenge);
            |p| == 8 && p[8 - |challenge|..] == challenge && FromBE(p) == FromBE(challenge)
  {
    hide FromBE;
    LeadingZeros(8 - |challenge|, challenge);
    assert Padded(challenge)[8 - |challenge|..] == challenge;
  }

  lemma TouchProperty(c: Credential)
    requires c.property < 4
    ensures NeedsTouch(c) <==> c.property in {2, 3}
  {
  }

  /** Without a confirmed touch, codes go out only from an open applet whose key is absent or proved. */
  lemma CodesNeedAccess(mac: Mac, w: World, e: Event)
    requires Next(mac, w, e).1.Codes? && !e.command.Confirm?
    ensures var a := Ready(w, e.readable).applet;
            !a.closed && (a.access.key == [] || a.authenticated)
  {
    hide Compute, AllCodes, Find, Calculated, Ready;
  }

  /**
   A host that installed a key can prove it: right after an accepted SET CODE and a new
   selection without fresh entropy, VALIDATE with the MAC of the derived challenge is
   answered with the MAC of the host's question, and the flag is on.
   */
  lemma HostCanAuthenticate(
    mac: Mac, w: World, algorithm: Byte, key: seq<Byte>, host: seq<Byte>, proof: Digest, question: seq<Byte>,
    answer: Digest, reply: Digest)
    requires !w.applet.closed && w.applet.loaded && Authorised(w.applet) && 0 < |key| <= 64
    requires mac.hmac(algorithm, key, host) == Some(proof)
    requires mac.hmac(algorithm, key, mac.derive(host, key)) == Some(answer)
    requires mac.hmac(algorithm, key, question) == Some(reply)
    ensures var u := Next(mac, w, Event(true, SetCode(Install(algorithm, key, host, proof), Done))).0;
            var v := Next(mac, u, Event(true, Select(None))).0;
            var (x, said) := Next(mac, v, Event(true, Validate(Some(answer), Some(question), Done)));
            && !v.applet.authenticated && said == Proof(reply) && x.applet.authenticated
            && x.applet.access.challenge == mac.derive(mac.derive(host, key), question)
  {
  }

  /** A new selection drops an armed touch and an earlier proof, and is closed iff the store does not read. */
  lemma SelectionStartsOver(mac: Mac, w: World, readable: bool, entropy: Option<Challenge>)
    ensures var a := Next(mac, w, Event(readable, Select(entropy))).0.applet;
            && a.pending.None? && (a.closed <==> !readable)
            && (a.authenticated <==> readable && (w.flash.Blank? || w.flash.access.key == []))
            && a.creds == (if readable && w.flash.Saved? then w.flash.creds else [])
            && (readable && w.flash.Saved? ==>
                  && a.access.key == w.flash.access.key && a.access.algorithm == w.flash.access.algorithm
                  && a.access.challenge == if w.flash.access.key != [] && entropy.Some? then entropy.value
                                           else w.flash.access.challenge)
  {
    hide Compute, AllCodes, Find;
  }

  /** An accepted RESET, in whatever state, leaves nothing: not now and not after any later selection. */
  lemma ResetErases(mac: Mac, w: World, readable: bool, entropy: Option<Challenge>)
    ensures var v := Next(mac, w, Event(readable, Reset(true, Done))).0;
            var a, b := v.applet, Next(mac, v, Event(true, Select(entropy))).0.applet;
            && v.flash == Blank && a.creds == [] && a.access.key == [] && !a.closed && !a.authenticated
            && b.creds == [] && b.access.key == [] && b.authenticated
  {
    hide Compute, AllCodes, Find;
  }

  /** What can bring a closed applet back. */
  predicate Reopens(e: Event)
  {
    (e.command.Select? && e.readable) || e.command.PowerCycle? || (e.command.Reset? && e.command.magic)
  }

  /** No command of the run is answered with a code or a proof of the key. */
  predicate OnlyStatuses(mac: Mac, w: World, events: seq<Event>)
    decreases |events|
  {
    events == [] || (Next(mac, w, events[0]).1.Status? && OnlyStatuses(mac, Next(mac, w, events[0]).0, events[1..]))
  }

  /**
   A store that once did not read is left alone: until a selection reads it, the power
   drops or a RESET erases it, no command writes it and no code or proof goes out.
   */
  lemma {:induction false} ClosedLeavesStoreAlone(mac: Mac, s: Session, events: seq<Event>)
    requires s.world.applet.closed && s.world.applet.loaded
    requires forall e :: e in events ==> !Reopens(e)
    ensures var w := After(mac, s, events).world;
            && w.applet.closed && w.applet.loaded
            && w.flash == s.world.flash && w.writes == s.world.writes
    ensures OnlyStatuses(mac, s.world, events)
    decreases |events|
  {
    hide Compute, AllCodes, Find;
    if events != [] {
      var s' := Session(Next(mac, s.world, events[0]).0, Requested(mac, s.world, events[0], s.request));
      assert events[0] in events;
      ClosedLeavesStoreAlone(mac, s', events[1..]);
    }
  }

  // ----- a stored credential keeps its key ---------------------------------------------------

  /** Everything about a credential but its counter. */
  function KeyOf(c: Credential): Credential { c.(counter := 0) }

  type Origins = map<nat, Credential>

  predicate Known(es: seq<Entry>, origins: Origins)
  {
    forall i :: 0 <= i < |es| ==> es[i].serial in origins && origins[es[i].serial] == KeyOf(es[i].cred)
  }

  /** RAM and flash hold each serial with the key PUT gave it. */
  predicate KeysOk(w: World, origins: Origins)
  {
    && Known(w.applet.creds, origins) && (w.flash.Saved? ==> Known(w.flash.creds, origins))
    && forall s :: s in origins ==> s < w.serials
  }

  function Grown(w: World, c: Command, v: World, origins: Origins): Origins
  {
    if c.Put? && c.parsed.Some? && v.serials == w.serials + 1 then origins[w.serials := KeyOf(c.parsed.value)]
    else origins
  }

  lemma KnownMore(es: seq<Entry>, origins: Origins, serials: nat, key: Credential)
    requires Known(es, origins) && forall s :: s in origins ==> s < serials
    ensures Known(es, origins[serials := key])
  {
  }

  lemma PutKnown(w: World, c: Command, origins: Origins)
    requires KeysOk(w, origins) && c.Put?
    ensures var v := PutStep(w, c.parsed, c.save).0;
            KeysOk(v, Grown(w, c, v, origins))
  {
    hide Find, OathState.CredentialOk;
    if c.parsed.Some? {
      var key := KeyOf(c.parsed.value);
      KnownMore(w.applet.creds, origins, w.serials, key);
      if w.flash.Saved? { KnownMore(w.flash.creds, origins, w.serials, key); }
    }
  }

  lemma DeleteKnown(w: World, c: Command, origins: Origins)
    requires KeysOk(w, origins) && c.Delete?
    ensures KeysOk(DeleteStep(w, c.name, c.save).0, origins)
  {
    hide Find;
  }

  lemma CalculatedKnown(
    mac: Mac, w: World, index: nat, challenge: seq<Byte>, truncated: bool, save: Save, origins: Origins)
    requires KeysOk(w, origins) && index < |w.applet.creds|
    ensures KeysOk(Calculated(mac, w, index, challenge, truncated, save).0, origins)
  {
    hide Compute;
  }

  lemma ProcessKnown(mac: Mac, w: World, c: Command, origins: Origins)
    requires KeysOk(w, origins) && !c.Select? && !c.Deny? && !c.PowerCycle?
    ensures var v := Process(mac, w, c).0;
            KeysOk(v, Grown(w, c, v, origins))
  {
    hide Calculated, AllCodes, PutStep, DeleteStep, Find;
    match c {
      case Put(_, _) => if !w.applet.closed { PutKnown(w, c, origins); }
      case Delete(_, _) => if !w.applet.closed { DeleteKnown(w, c, origins); }
      case Calculate(name, challenge, truncated, save) =>
        if name.Some? && Find(w.applet.creds, name.value).Some? {
          CalculatedKnown(mac, w, Find(w.applet.creds, name.value).value, challenge, truncated, save, origins);
        }
      case Confirm(save) =>
        var p := w.applet.pending;
        if p.Some? && p.value.index < |w.applet.creds| {
          var v := w.(applet := w.applet.(pending := None));
          CalculatedKnown(mac, v, p.value.index, p.value.challenge, p.value.truncated, save, origins);
        }
      case _ =>
    }
  }

  lemma NextKnown(mac: Mac, w: World, e: Event, origins: Origins)
    requires KeysOk(w, origins)
    ensures var v := Next(mac, w, e).0;
            KeysOk(v, Grown(w, e.command, v, origins)) && KeysOk(Ready(w, e.readable), origins)
  {
    hide Process;
    if !e.command.Select? && !e.command.Deny? && !e.command.PowerCycle? {
      ProcessKnown(mac, Ready(w, e.readable), e.command, origins);
    }
  }

  /** Origins only grow, so what was true of a released entry stays true. */
  function OriginsAfter(mac: Mac, w: World, events: seq<Event>, origins: Origins): Origins
    decreases |events|
  {
    if events == [] then origins
    else
      var v := Next(mac, w, events[0]).0;
      OriginsAfter(mac, v, events[1..], Grown(w, events[0].command, v, origins))
  }

  lemma {:induction false} OriginsStay(mac: Mac, w: World, events: seq<Event>, origins: Origins, s: nat)
    requires KeysOk(w, origins) && s in origins
    ensures s in OriginsAfter(mac, w, events, origins) && OriginsAfter(mac, w, events, origins)[s] == origins[s]
    decreases |events|
  {
    hide Next, Known;
    if events != [] {
      NextKnown(mac, w, events[0], origins);
      var v := Next(mac, w, events[0]).0;
      OriginsStay(mac, v, events[1..], Grown(w, events[0].command, v, origins), s);
    }
  }

  /** A release: a code over its own counter, under the key its serial was given. */
  ghost predicate Genuine(mac: Mac, origins: Origins, x: Released)
  {
    && x.entry.serial in origins && origins[x.entry.serial] == KeyOf(x.entry.cred)
    && exists m :: |m| == 8 && FromBE(m) == x.entry.cred.counter && IsCode(mac, x.entry.cred, m, x.truncated, x.bytes)
  }

  lemma StepGenuine(mac: Mac, w: World, e: Event, request: Request, floors: Floors, origins: Origins, x: Released)
    requires Inv(w, request, floors) && KeysOk(w, origins) && x in HotpOf(Next(mac, w, e).1)
    ensures Genuine(mac, origins, x)
  {
    hide Inv, Compute, Process, Ready, Known;
    var v := Ready(w, e.readable);
    ReadyKeeps(w, e.readable, request, floors);
    NextKnown(mac, w, e, origins);
    InvCounters(v, request, floors);
    ProcessReleases(mac, v, e.command, x);
    KnownAt(v.applet.creds, origins, x.entry);
    var m :| IsMessage(x.entry.cred, HostChallenge(v.applet, e.command), m)
          && IsCode(mac, x.entry.cred, m, x.truncated, x.bytes);
    assert FromBE(m) == x.entry.cred.counter;
  }

  lemma KnownAt(es: seq<Entry>, origins: Origins, e: Entry)
    requires Known(es, origins) && e in es
    ensures e.serial in origins && origins[e.serial] == KeyOf(e.cred)
  {
  }

  lemma {:induction false} RunGenuine(
    mac: Mac, w: World, events: seq<Event>, request: Request, floors: Floors, origins: Origins, x: Released)
    requires Inv(w, request, floors) && KeysOk(w, origins) && x in Releases(mac, w, events)
    ensures Genuine(mac, OriginsAfter(mac, w, events, origins), x)
    decreases |events|
  {
    hide Inv, Next, Genuine, KeysOk, Requested, IsCode;
    if events != [] {
      var e := events[0];
      var (v, reply) := Next(mac, w, e);
      var grown := Grown(w, e.command, v, origins);
      NextKnown(mac, w, e, origins);
      NextKeeps(mac, w, e, request, floors);
      if x in HotpOf(reply) {
        StepGenuine(mac, w, e, request, floors, origins, x);
        GenuineStays(mac, w, events, origins, x);
      } else {
        RunGenuine(mac, v, events[1..], Requested(mac, w, e, request), Raised(floors, HotpOf(reply)), grown, x);
      }
    }
  }

  lemma GenuineStays(mac: Mac, w: World, events: seq<Event>, origins: Origins, x: Released)
    requires KeysOk(w, origins) && Genuine(mac, origins, x)
    ensures Genuine(mac, OriginsAfter(mac, w, events, origins), x)
  {
    hide IsCode, KeysOk;
    OriginsStay(mac, w, events, origins, x.entry.serial);
  }

  /** Different messages have different MACs under one key. */
  ghost predicate InjectiveMac(mac: Mac)
  {
    forall a: Byte, k: seq<Byte>, m: seq<Byte>, n: seq<Byte> ::
      mac.hmac(a, k, m).Some? && mac.hmac(a, k, m) == mac.hmac(a, k, n) ==> m == n
  }

  /**
   Over every run from power-up, with a MAC that is injective in its message: two whole HOTP
   codes released for one stored credential differ, unless the counter has wrapped between.
   */
  lemma FullCodesDiffer(mac: Mac, events: seq<Event>, i: nat, j: nat)
    requires InjectiveMac(mac) && i < j < |Releases(mac, Boot(), events)|
    requires var x, y := Releases(mac, Boot(), events)[i], Releases(mac, Boot(), events)[j];
             && x.entry.serial == y.entry.serial && !x.truncated && !y.truncated
             && y.entry.moving < x.entry.moving + U32
    ensures Releases(mac, Boot(), events)[i].bytes != Releases(mac, Boot(), events)[j].bytes
  {
    var rs := Releases(mac, Boot(), events);
    var x, y := rs[i], rs[j];
    GoodEmpty(0, map[]);
    CountersRiseUntilWrap(mac, events, i, j);
    assert x in rs && y in rs;
    RunGenuine(mac, Boot(), events, Idle, map[], map[], x);
    RunGenuine(mac, Boot(), events, Idle, map[], map[], y);
    hide Releases, OriginsAfter;
    CodesOfDifferentCounters(mac, OriginsAfter(mac, Boot(), events, map[]), x, y);
  }

  lemma CodesOfDifferentCounters(mac: Mac, origins: Origins, x: Released, y: Released)
    requires InjectiveMac(mac) && Genuine(mac, origins, x) && Genuine(mac, origins, y)
    requires x.entry.serial == y.entry.serial && x.entry.cred.counter != y.entry.cred.counter
    requires !x.truncated && !y.truncated
    ensures x.bytes != y.bytes
  {
    var c, d := x.entry.cred, y.entry.cred;
    assert c.algorithm == d.algorithm && c.secret == d.secret && c.digits == d.digits by {
      assert KeyOf(c) == KeyOf(d);
    }
    var m :| |m| == 8 && FromBE(m) == c.counter && IsCode(mac, c, m, false, x.bytes);
    var n :| |n| == 8 && FromBE(n) == d.counter && IsCode(mac, d, n, false, y.bytes);
    var p, q := mac.hmac(c.algorithm, c.secret, m).value, mac.hmac(d.algorithm, d.secret, n).value;
    assert x.bytes[1..] == p && y.bytes[1..] == q;
  }
}
