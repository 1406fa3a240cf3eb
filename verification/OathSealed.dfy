/**
 The OATH applet on its sealed store: two data shards and a commit cell, with power cuts
 and flash errors inside any slot write. Every write the applet makes is a save of the
 blob, every read is a load of it, and what the store answers decides how the command
 goes on. Flash as the applet's machine sees it is shown to be what a load decodes to.
 */
module OathSealed {
  import opened Wrappers
  import opened Bytes
  import opened SealedBlob
  import Oath
  import OathState
  import Safety = SealedBlobSafety

  const APPLET: nat := 2
  const SHARDS: nat := 2

  datatype System = System(world: Oath.World, store: Store)

  /** A command and where its save stops, if it makes one. The save inside the command is not used. */
  datatype Step = Step(command: Oath.Command, fault: Fault)

  function Boot(): System { System(Oath.Boot(), Safety.Fresh(APPLET, SHARDS)) }

  /** The command with the outcome the store gave its save. */
  function WithSave(c: Oath.Command, save: Oath.Save): Oath.Command
  {
    match c
    case Put(parsed, _) => Oath.Put(parsed, save)
    case Delete(name, _) => Oath.Delete(name, save)
    case Calculate(name, challenge, truncated, _) => Oath.Calculate(name, challenge, truncated, save)
    case SetCode(code, _) => Oath.SetCode(code, save)
    case Validate(answer, question, _) => Oath.Validate(answer, question, save)
    case Reset(magic, _) => Oath.Reset(magic, save)
    case Confirm(_) => Oath.Confirm(save)
    case _ => c
  }

  /** The octets of a flash state: nothing for a blank one, as the erase writes it. */
  function Image(f: Oath.Flash): (b: seq<Byte>)
  {
    match f
    case Blank => []
    case Saved(creds, access) =>
      var state := Oath.Record(creds, access);
      if OathState.StateOk(state) then OathState.Encode(state) else []
  }

  /** A load into the applet's buffer fails exactly on a store error. */
  predicate Readable(s: Store) { !LoadedBlob(s, OathState.STATE_BYTES).Failed? }

  /** The world if the store accepts whatever the command hands it. */
  function Hoped(mac: Oath.Mac, sys: System, step: Step): Oath.World
  {
    Oath.Next(mac, sys.world, Oath.Event(Readable(sys.store), WithSave(step.command, Oath.Done))).0
  }

  predicate Writes(mac: Oath.Mac, sys: System, step: Step) { Hoped(mac, sys, step).writes > sys.world.writes }

  function Written(mac: Oath.Mac, sys: System, step: Step): seq<Byte> { Image(Hoped(mac, sys, step).flash) }

  predicate Lands(mac: Oath.Mac, sys: System, step: Step)
  {
    && |Written(mac, sys, step)| <= |sys.store.data| * SHARD_BODY_MAX
    && FreshGen(sys.store).Some? && !Interrupts(step.fault, |sys.store.data|)
  }

  /** A stop right after the commit record: the save is complete, and the applet hears of an error. */
  predicate Cut(f: Fault, n: nat) { f.Stop? && f.k == n }

  /** The event the applet sees: whether its read worked, and whether its save did. */
  function EventOf(mac: Oath.Mac, sys: System, step: Step): Oath.Event
  {
    var save :=
      if !Lands(mac, sys, step) then Oath.FailedOld
      else if Cut(step.fault, |sys.store.data|) then Oath.FailedNew
      else Oath.Done;
    Oath.Event(Readable(sys.store), WithSave(step.command, save))
  }

  function Next(mac: Oath.Mac, sys: System, step: Step): System
  {
    var store := if Writes(mac, sys, step) then Saved(sys.store, Written(mac, sys, step), step.fault) else sys.store;
    System(Oath.Next(mac, sys.world, EventOf(mac, sys, step)).0, store)
  }

  function Run(mac: Oath.Mac, sys: System, steps: seq<Step>): System
    decreases |steps|
  {
    if steps == [] then sys else Run(mac, Next(mac, sys, steps[0]), steps[1..])
  }

  function Events(mac: Oath.Mac, sys: System, steps: seq<Step>): seq<Oath.Event>
    decreases |steps|
  {
    if steps == [] then [] else [EventOf(mac, sys, steps[0])] + Events(mac, Next(mac, sys, steps[0]), steps[1..])
  }

  ghost predicate RunRoom(mac: Oath.Mac, sys: System, steps: seq<Step>)
    decreases |steps|
  {
    steps != [] ==> Safety.Room(sys.store) && RunRoom(mac, Next(mac, sys, steps[0]), steps[1..])
  }

  // ----- one step ----------------------------------------------------------------------------

  /** From `w`, an accepted, a refused and a cut save differ in flash only as they should. */
  predicate Twins(w: Oath.World, done: Oath.World, failed: Oath.World, cut: Oath.World)
  {
    && failed.flash == w.flash && cut.flash == done.flash
    && done.writes == failed.writes == cut.writes >= w.writes
    && (done.writes == w.writes ==> done.flash == w.flash)
  }

  lemma CalculatedTwins(mac: Oath.Mac, w: Oath.World, index: nat, challenge: seq<Byte>, truncated: bool)
    requires index < |w.applet.creds|
    ensures Twins(w, Oath.Calculated(mac, w, index, challenge, truncated, Oath.Done).0,
                  Oath.Calculated(mac, w, index, challenge, truncated, Oath.FailedOld).0,
                  Oath.Calculated(mac, w, index, challenge, truncated, Oath.FailedNew).0)
  {
    hide Oath.Compute;
  }

  lemma CalculateTwins(mac: Oath.Mac, w: Oath.World, c: Oath.Command)
    requires c.Calculate?
    ensures Twins(w, Oath.CalculateStep(mac, w, c.name, c.challenge, c.truncated, Oath.Done).0,
                  Oath.CalculateStep(mac, w, c.name, c.challenge, c.truncated, Oath.FailedOld).0,
                  Oath.CalculateStep(mac, w, c.name, c.challenge, c.truncated, Oath.FailedNew).0)
  {
    hide Oath.Calculated, Oath.Padded;
    if c.name.Some? && Oath.Find(w.applet.creds, c.name.value).Some? {
      CalculatedTwins(mac, w, Oath.Find(w.applet.creds, c.name.value).value, c.challenge, c.truncated);
    }
  }

  lemma ConfirmTwins(mac: Oath.Mac, w: Oath.World)
    ensures Twins(w, Oath.ConfirmStep(mac, w, Oath.Done).0, Oath.ConfirmStep(mac, w, Oath.FailedOld).0,
                  Oath.ConfirmStep(mac, w, Oath.FailedNew).0)
  {
    hide Oath.Calculated;
    var p := w.applet.pending;
    if p.Some? && p.value.index < |w.applet.creds| {
      var v := w.(applet := w.applet.(pending := None));
      CalculatedTwins(mac, v, p.value.index, p.value.challenge, p.value.truncated);
    }
  }

  lemma ListTwins(w: Oath.World, c: Oath.Command)
    requires c.Put? || c.Delete?
    ensures c.Put? ==>
      Twins(w, Oath.PutStep(w, c.parsed, Oath.Done).0, Oath.PutStep(w, c.parsed, Oath.FailedOld).0,
            Oath.PutStep(w, c.parsed, Oath.FailedNew).0)
    ensures c.Delete? ==>
      Twins(w, Oath.DeleteStep(w, c.name, Oath.Done).0, Oath.DeleteStep(w, c.name, Oath.FailedOld).0,
            Oath.DeleteStep(w, c.name, Oath.FailedNew).0)
  {
  }

  lemma AccessTwins(mac: Oath.Mac, w: Oath.World, c: Oath.Command)
    requires c.SetCode? || c.Validate?
    ensures c.SetCode? ==>
      Twins(w, Oath.SetCodeStep(mac, w, c.code, Oath.Done).0, Oath.SetCodeStep(mac, w, c.code, Oath.FailedOld).0,
            Oath.SetCodeStep(mac, w, c.code, Oath.FailedNew).0)
    ensures c.Validate? ==>
      Twins(w, Oath.ValidateStep(mac, w, c.answer, c.question, Oath.Done).0,
            Oath.ValidateStep(mac, w, c.answer, c.question, Oath.FailedOld).0,
            Oath.ValidateStep(mac, w, c.answer, c.question, Oath.FailedNew).0)
  {
  }

  lemma ProcessTwins(mac: Oath.Mac, w: Oath.World, c: Oath.Command)
    requires !c.Select? && !c.Deny? && !c.PowerCycle?
    ensures Twins(w, Oath.Process(mac, w, WithSave(c, Oath.Done)).0,
                  Oath.Process(mac, w, WithSave(c, Oath.FailedOld)).0,
                  Oath.Process(mac, w, WithSave(c, Oath.FailedNew)).0)
  {
    hide Oath.PutStep, Oath.DeleteStep, Oath.CalculateStep, Oath.SetCodeStep, Oath.ValidateStep, Oath.ConfirmStep,
      Oath.AllCodes;
    match c {
      case Put(_, _) => ListTwins(w, c);
      case Delete(_, _) => ListTwins(w, c);
      case Calculate(_, _, _, _) => CalculateTwins(mac, w, c);
      case SetCode(_, _) => AccessTwins(mac, w, c);
      case Validate(_, _, _) => AccessTwins(mac, w, c);
      case Confirm(_) => ConfirmTwins(mac, w);
      case _ =>
    }
  }

  /** The outcome of a save decides what flash holds, not whether a save is made. */
  lemma SaveDecidesFlash(mac: Oath.Mac, w: Oath.World, readable: bool, c: Oath.Command)
    ensures Twins(w, Oath.Next(mac, w, Oath.Event(readable, WithSave(c, Oath.Done))).0,
                  Oath.Next(mac, w, Oath.Event(readable, WithSave(c, Oath.FailedOld))).0,
                  Oath.Next(mac, w, Oath.Event(readable, WithSave(c, Oath.FailedNew))).0)
  {
    hide Oath.Process;
    if !c.Select? && !c.Deny? && !c.PowerCycle? {
      ProcessTwins(mac, Oath.Ready(w, readable), c);
    }
  }

  /** The store is the ledger's, and the last committed blob is the image of flash. */
  predicate Coupled(sys: System, l: Safety.Ledger)
  {
    && Safety.Inv(sys.store, l) && |sys.store.data| == SHARDS
    && match l.last
       case None => sys.world.flash.Blank?
       case Some(c) => c.blob == Image(sys.world.flash)
  }

  ghost predicate Inv(sys: System, l: Safety.Ledger, request: Oath.Request, floors: Oath.Floors)
  {
    Oath.Inv(sys.world, request, floors) && Coupled(sys, l)
  }

  function LedgerAfter(mac: Oath.Mac, sys: System, l: Safety.Ledger, step: Step): Safety.Ledger
  {
    if Writes(mac, sys, step) then Safety.Advance(sys.store, l, Written(mac, sys, step), step.fault) else l
  }

  lemma ImageFits(w: Oath.World, request: Oath.Request, floors: Oath.Floors)
    requires Oath.Inv(w, request, floors)
    ensures |Image(w.flash)| <= OathState.STATE_BYTES
    ensures w.flash.Saved? ==>
      && OathState.StateOk(Oath.Record(w.flash.creds, w.flash.access))
      && OathState.Decode(Image(w.flash)) == Some(Oath.Record(w.flash.creds, w.flash.access))
  {
    if w.flash.Saved? {
      Oath.RecordOk(w.flash.creds, w.flash.access, w.serials);
      OathState.StateRoundTrip(Oath.Record(w.flash.creds, w.flash.access));
    }
  }

  lemma SavedKeepsShards(s: Store, blob: seq<Byte>, f: Fault)
    ensures |Saved(s, blob, f).data| == |s.data|
  {
  }

  lemma NextCouples(
    mac: Oath.Mac, sys: System, l: Safety.Ledger, step: Step, request: Oath.Request, floors: Oath.Floors)
    requires Inv(sys, l, request, floors) && Safety.Room(sys.store)
    ensures Coupled(Next(mac, sys, step), LedgerAfter(mac, sys, l, step))
  {
    hide Oath.Next, Oath.Inv, Safety.Inv, Safety.Room, Image, Saved;
    SaveDecidesFlash(mac, sys.world, Readable(sys.store), step.command);
    if Writes(mac, sys, step) {
      var blob := Written(mac, sys, step);
      HopedFits(mac, sys, step, request, floors);
      Safety.SaveKeepsInv(sys.store, l, blob, step.fault);
      SavedKeepsShards(sys.store, blob, step.fault);
    }
  }

  lemma HopedFits(mac: Oath.Mac, sys: System, step: Step, request: Oath.Request, floors: Oath.Floors)
    requires Oath.Inv(sys.world, request, floors)
    ensures |Written(mac, sys, step)| <= OathState.STATE_BYTES
  {
    hide Oath.Next, Oath.Inv, Image, Oath.Requested;
    var e := Oath.Event(Readable(sys.store), WithSave(step.command, Oath.Done));
    Oath.NextKeeps(mac, sys.world, e, request, floors);
    ImageFits(Hoped(mac, sys, step), Oath.Requested(mac, sys.world, e, request),
              Oath.Raised(floors, Oath.HotpOf(Oath.Next(mac, sys.world, e).1)));
  }

  lemma NextKeeps(mac: Oath.Mac, sys: System, l: Safety.Ledger, step: Step, request: Oath.Request, floors: Oath.Floors)
    returns (request': Oath.Request, floors': Oath.Floors)
    requires Inv(sys, l, request, floors) && Safety.Room(sys.store)
    ensures Inv(Next(mac, sys, step), LedgerAfter(mac, sys, l, step), request', floors')
  {
    hide Oath.Next, Oath.Inv, Coupled, Oath.Requested;
    var e := EventOf(mac, sys, step);
    NextCouples(mac, sys, l, step, request, floors);
    Oath.NextKeeps(mac, sys.world, e, request, floors);
    request' := Oath.Requested(mac, sys.world, e, request);
    floors' := Oath.Raised(floors, Oath.HotpOf(Oath.Next(mac, sys.world, e).1));
  }

  // ----- whole runs --------------------------------------------------------------------------

  /** A load is an error, or it decodes to exactly what the applet's machine says flash holds. */
  predicate Faithful(sys: System)
  {
    match LoadedBlob(sys.store, OathState.STATE_BYTES)
    case Failed => true
    case Empty => sys.world.flash.Blank?
    case Blob(b) =>
      if sys.world.flash.Blank? then b == []
      else OathState.Decode(b) == Some(Oath.Record(sys.world.flash.creds, sys.world.flash.access))
  }

  lemma InvIsFaithful(sys: System, l: Safety.Ledger, request: Oath.Request, floors: Oath.Floors)
    requires Inv(sys, l, request, floors)
    ensures Faithful(sys)
  {
    hide Oath.Inv, Safety.Inv, LoadedBlob, Image, OathState.Decode;
    Safety.LoadIsAnswer(sys.store, l, OathState.STATE_BYTES);
    ImageFits(sys.world, request, floors);
    if sys.world.flash.Blank? { BlankImage(sys.world.flash); }
  }

  lemma BlankImage(f: Oath.Flash)
    requires f.Blank?
    ensures Image(f) == []
  {
  }

  lemma {:induction false} RunKeeps(
    mac: Oath.Mac, sys: System, l: Safety.Ledger, steps: seq<Step>, request: Oath.Request, floors: Oath.Floors)
    requires Inv(sys, l, request, floors) && RunRoom(mac, sys, steps)
    ensures Faithful(Run(mac, sys, steps))
    decreases |steps|
  {
    hide Inv, Next, LedgerAfter, Faithful;
    if steps == [] {
      InvIsFaithful(sys, l, request, floors);
    } else {
      var request', floors' := NextKeeps(mac, sys, l, steps[0], request, floors);
      RunKeeps(mac, Next(mac, sys, steps[0]), LedgerAfter(mac, sys, l, steps[0]), steps[1..], request', floors');
    }
  }

  lemma BootInv()
    ensures Inv(Boot(), Safety.Ledger(None, 0), Oath.Idle, map[])
  {
    Oath.GoodEmpty(0, map[]);
    Safety.FreshInv(APPLET, SHARDS);
    hide Oath.Good, Safety.Inv;
  }

  /**
   After every run of commands with power cuts and errors inside any slot write: a load
   from the sealed shards fails, or decodes to exactly the flash the applet's machine
   reads. So the machine's answers, read and save outcomes, are those of the real store.
   */
  lemma SealedRunIsFaithful(mac: Oath.Mac, steps: seq<Step>)
    requires RunRoom(mac, Boot(), steps)
    ensures Faithful(Run(mac, Boot(), steps))
  {
    hide Inv, Run, RunRoom, Faithful;
    BootInv();
    RunKeeps(mac, Boot(), Safety.Ledger(None, 0), steps, Oath.Idle, map[]);
  }

  lemma {:induction false} RunIsOathRun(mac: Oath.Mac, sys: System, request: Oath.Request, steps: seq<Step>)
    ensures Run(mac, sys, steps).world ==
            Oath.After(mac, Oath.Session(sys.world, request), Events(mac, sys, steps)).world
    decreases |steps|
  {
    hide Oath.Next, EventOf, Oath.Requested;
    if steps != [] {
      var e, sys' := EventOf(mac, sys, steps[0]), Next(mac, sys, steps[0]);
      assert Events(mac, sys, steps)[1..] == Events(mac, sys', steps[1..]);
      assert sys'.world == Oath.Next(mac, sys.world, e).0;
      RunIsOathRun(mac, sys', Oath.Requested(mac, sys.world, e, request), steps[1..]);
    }
  }

  /** All HOTP codes a run on the sealed store releases, in order. */
  function Releases(mac: Oath.Mac, steps: seq<Step>): seq<Oath.Released>
  {
    Oath.Releases(mac, Oath.Boot(), Events(mac, Boot(), steps))
  }

  lemma {:induction false} RoomOfPrefix(mac: Oath.Mac, sys: System, steps: seq<Step>, k: nat)
    requires RunRoom(mac, sys, steps) && k <= |steps|
    ensures RunRoom(mac, sys, steps[..k])
    decreases |steps|
  {
    hide Next, Safety.Room;
    if k > 0 {
      RoomOfPrefix(mac, Next(mac, sys, steps[0]), steps[1..], k - 1);
      assert steps[..k][1..] == steps[1..][..k - 1];
    }
  }

  /**
   On the sealed store, down to power cuts inside a slot write: the moving factors released
   for one credential rise until the wrap, and at every point of the run what the applet
   would load is what its machine says flash holds, or an error.
   */
  lemma SealedCountersRise(mac: Oath.Mac, steps: seq<Step>, i: nat, j: nat)
    requires RunRoom(mac, Boot(), steps) && i < j < |Releases(mac, steps)|
    requires Releases(mac, steps)[i].entry.serial == Releases(mac, steps)[j].entry.serial
    ensures var x, y := Releases(mac, steps)[i].entry, Releases(mac, steps)[j].entry;
            && x.moving < y.moving && (y.moving < U32 ==> x.cred.counter < y.cred.counter)
            && (x.cred.counter == y.cred.counter ==> x.moving + U32 <= y.moving)
    ensures Run(mac, Boot(), steps).world == Oath.Reached(mac, Events(mac, Boot(), steps)).world
    ensures forall k :: 0 <= k <= |steps| ==> Faithful(Run(mac, Boot(), steps[..k]))
  {
    hide Oath.Releases, Events, Run, RunRoom, Faithful;
    Oath.CountersRiseUntilWrap(mac, Events(mac, Boot(), steps), i, j);
    RunIsOathRun(mac, Boot(), Oath.Idle, steps);
    forall k | 0 <= k <= |steps|
      ensures Faithful(Run(mac, Boot(), steps[..k]))
    {
      RoomOfPrefix(mac, Boot(), steps, k);
      SealedRunIsFaithful(mac, steps[..k]);
    }
  }
}
