/**
 The FIDO credential database: held in RAM, sealed as one record and flushed through
 the two-slot store after every change. CBOR encoding and AES-GCM are ideal: a stored
 record is a database this device sealed, or one of the shapes that are refused.
 */
module CredentialStore {
  import opened Wrappers
  import opened Bytes
  import opened SlotStore
  import Keyed

  const MAX_CREDENTIALS := 8
  const DEFAULT_PIN_RETRIES: nat := 8
  const SIGN_COUNT_MAX := U32 - 1

  datatype Credential = Credential(
    id: seq<Byte>, rpId: string, userId: seq<Byte>, privateKey: seq<Byte>, algorithm: int,
    signCount: nat, discoverable: bool)

  datatype Database =
    Database(cache: seq<Credential>, counter: nat, pinHash: Option<seq<Byte>>, pinRetries: nat)

  const EMPTY := Database([], 0, None, DEFAULT_PIN_RETRIES)

  /** A record: too short, not authentic, authentic but not decodable, or a database. */
  datatype Blob = Undersized | Unauthentic | Undecodable | Holds(db: Database)

  // ----- opening -----------------------------------------------------------------------

  predicate Fails(s: Slot<Blob>) { s.Record? && !s.payload.Holds? }
  predicate Valid(s: Slot<Blob>) { s.Record? && s.payload.Holds? }

  /** The selected slot: the highest counter, the first slot on a tie. */
  function Selected(c: Cell<Blob>): (i: Option<nat>)
    ensures i.Some? ==> i.value < 2 && Valid(At(c, i.value))
  {
    if Valid(c.s1) && (!Valid(c.s0) || c.s1.payload.db.counter > c.s0.payload.db.counter) then Some(1)
    else if Valid(c.s0) then Some(0)
    else None
  }

  /** The highest sequence among the records that failed. */
  function NewestFailed(c: Cell<Blob>): Option<nat>
  {
    if Fails(c.s0) && (!Fails(c.s1) || c.s1.sequence <= c.s0.sequence) then Some(c.s0.sequence)
    else if Fails(c.s1) then Some(c.s1.sequence)
    else None
  }

  /** `None` is the storage error. */
  function Opened(c: Cell<Blob>): Option<Database>
  {
    var chosen, failed := Selected(c), NewestFailed(c);
    if failed.Some? && (chosen.None? || failed.value > At(c, chosen.value).sequence) then None
    else if chosen.None? then Some(EMPTY)
    else Some(At(c, chosen.value).payload.db)
  }

  /** Opening fails exactly when a refused record is not older than a valid one in the other slot. */
  lemma OpenFailsIff(c: Cell<Blob>)
    ensures Opened(c).None? <==>
      || (Fails(c.s0) && !(Valid(c.s1) && c.s1.sequence >= c.s0.sequence))
      || (Fails(c.s1) && !(Valid(c.s0) && c.s0.sequence >= c.s1.sequence))
  {
  }

  /** What opens is one of the stored databases, with the highest counter, or a new empty one. */
  lemma OpenPicksNewest(c: Cell<Blob>)
    requires Opened(c).Some?
    ensures var db := Opened(c).value;
      && (Valid(c.s0) ==> c.s0.payload.db.counter <= db.counter)
      && (Valid(c.s1) ==> c.s1.payload.db.counter <= db.counter)
      && (if Valid(c.s0) || Valid(c.s1)
          then (Valid(c.s0) && db == c.s0.payload.db) || (Valid(c.s1) && db == c.s1.payload.db)
          else db == EMPTY && c == Blank())
  {
  }

  // ----- changes ----------------------------------------------------------------------------

  datatype Op =
    | SetPin(hash: seq<Byte>) | ClearPin | SetPinRetries(retries: nat) | Reset
    | Insert(credential: Credential) | NextSignCount(id: seq<Byte>) | Remove(id: seq<Byte>) | Clear

  function Id(c: Credential): seq<Byte> { c.id }

  function Find(cache: seq<Credential>, id: seq<Byte>): (i: Option<nat>)
    ensures i.Some? ==> i.value < |cache| && cache[i.value].id == id
    ensures i.None? ==> forall j :: 0 <= j < |cache| ==> cache[j].id != id
  {
    Keyed.Find(cache, Id, id)
  }

  /** The database in RAM after an operation, before its flush; `None` when it is refused. */
  function Applied(op: Op, db: Database): Option<Database>
  {
    match op
    case SetPin(h) => Some(db.(pinHash := Some(h), pinRetries := DEFAULT_PIN_RETRIES))
    case ClearPin => Some(db.(pinHash := None, pinRetries := DEFAULT_PIN_RETRIES))
    case SetPinRetries(n) => Some(db.(pinRetries := n))
    case Reset => Some(db.(cache := [], pinHash := None, pinRetries := DEFAULT_PIN_RETRIES))
    case Insert(c) =>
      var i := Find(db.cache, c.id);
      if i.Some? then Some(db.(cache := db.cache[i.value := c]))
      else if |db.cache| >= MAX_CREDENTIALS then None
      else Some(db.(cache := db.cache + [c]))
    case NextSignCount(id) =>
      var i := Find(db.cache, id);
      if i.None? then None
      else
        var c := db.cache[i.value];
        var next := if c.signCount >= SIGN_COUNT_MAX then SIGN_COUNT_MAX else c.signCount + 1;
        Some(db.(cache := db.cache[i.value := c.(signCount := next)]))
    case Remove(id) =>
      var i := Find(db.cache, id);
      if i.None? then Some(db) else Some(db.(cache := Keyed.SwapRemove(db.cache, i.value)))
    case Clear => Some(db.(cache := []))
  }

  predicate CacheOk(db: Database) { Keyed.Distinct(db.cache, Id) && |db.cache| <= MAX_CREDENTIALS }

  function Lookup(db: Database, id: seq<Byte>): Option<Credential> { Keyed.Lookup(db.cache, Id, id) }

  /** A signature count one further on, up to the largest 32-bit value. */
  function Counted(c: Credential): Credential
  {
    c.(signCount := if c.signCount >= SIGN_COUNT_MAX then SIGN_COUNT_MAX else c.signCount + 1)
  }

  /** What an operation leaves under an identifier. */
  function Meant(op: Op, db: Database, id: seq<Byte>): Option<Credential>
  {
    match op
    case Insert(c) => if id == c.id then Some(c) else Lookup(db, id)
    case Remove(gone) => if id == gone then None else Lookup(db, id)
    case NextSignCount(used) =>
      if id == used && Lookup(db, id).Some? then Some(Counted(Lookup(db, id).value)) else Lookup(db, id)
    case Reset => None
    case Clear => None
    case _ => Lookup(db, id)
  }

  /** Every operation is one update of the map from identifier to credential, within the capacity. */
  lemma ApplyIsMapUpdate(op: Op, db: Database, id: seq<Byte>)
    requires CacheOk(db) && Applied(op, db).Some?
    ensures var after := Applied(op, db).value;
            CacheOk(after) && after.counter == db.counter && Lookup(after, id) == Meant(op, db, id)
  {
    hide Keyed.Find;
    var cache := db.cache;
    match op {
      case Insert(c) =>
        var i := Find(cache, c.id);
        if i.Some? {
          Keyed.ReplaceIsUpdate(cache, Id, i.value, c, id);
        } else {
          Keyed.AppendIsInsert(cache, Id, c, id);
        }
      case NextSignCount(used) =>
        var i := Find(cache, used).value;
        Keyed.ReplaceIsUpdate(cache, Id, i, Counted(cache[i]), id);
      case Remove(gone) =>
        var i := Find(cache, gone);
        if i.Some? { Keyed.RemoveIsErase(cache, Id, i.value, id); }
      case _ =>
        LookupEmpty(id);
    }
  }

  lemma LookupEmpty(id: seq<Byte>)
    ensures Keyed.Lookup([], Id, id) == None
  {
  }

  /** Only a new identifier for a full cache, or a count for an unknown one, is refused. */
  predicate Refuses(op: Op, db: Database)
  {
    || (op.Insert? && Lookup(db, op.credential.id).None? && |db.cache| >= MAX_CREDENTIALS)
    || (op.NextSignCount? && Lookup(db, op.id).None?)
  }

  lemma RefusedIff(op: Op, db: Database)
    ensures Applied(op, db).None? <==> Refuses(op, db)
  {
    hide Keyed.Find;
  }

  // ----- the device ----------------------------------------------------------------------------

  /** RAM and flash. */
  datatype Device = Device(ram: Database, cell: Cell<Blob>)

  /** One attempt to change the store: whether the encoding fits, and how far the store gets. */
  datatype Event = Change(op: Op, fits: bool, reached: Outcome) | Reboot

  /** The flush: count up, encode, seal, store. */
  function Flushed(d: Device, fits: bool, reached: Outcome): Device
  {
    var ram := d.ram.(counter := (d.ram.counter + 1) % U64);
    Device(ram, if fits then Stored(d.cell, Holds(ram), reached) else d.cell)
  }

  function Next(d: Device, e: Event): Device
  {
    match e
    case Reboot => (match Opened(d.cell) case Some(db) => d.(ram := db) case None => d)
    case Change(op, fits, reached) =>
      match Applied(op, d.ram)
      case None => d
      case Some(db) => Flushed(d.(ram := db), fits, reached)
  }

  predicate Completes(d: Device, e: Event)
  {
    e.Change? && Applied(e.op, d.ram).Some? && e.fits && e.reached.Completed?
  }

  /** The database of the last completed flush, tracked beside the device. */
  function LastAfter(d: Device, last: Database, e: Event): Database
  {
    if Completes(d, e) then Next(d, e).ram else last
  }

  predicate SlotOk(s: Slot<Blob>) { s.Record? ==> s.payload.Holds? }

  /** Flash holds only databases, newer ones with higher counters, and the newest is `last`. */
  predicate Inv(d: Device, last: Database)
  {
    && SlotOk(d.cell.s0) && SlotOk(d.cell.s1)
    && (d.cell.s0.Record? && d.cell.s1.Record? ==>
          && d.cell.s0.sequence != d.cell.s1.sequence
          && (d.cell.s0.sequence < d.cell.s1.sequence <==> d.cell.s0.payload.db.counter < d.cell.s1.payload.db.counter)
          && d.cell.s0.payload.db.counter != d.cell.s1.payload.db.counter)
    && (match Loaded(d.cell) case Some(b) => b == Holds(last) case None => last == EMPTY)
    && last.counter <= d.ram.counter
    && CacheOk(d.ram) && CacheOk(last)
  }

  predicate Room(d: Device)
  {
    Headroom(d.cell) && d.ram.counter + 1 < U64
  }

  /** In every state of a run, opening recovers exactly the last completed flush. */
  lemma ReopenYieldsLast(d: Device, last: Database)
    requires Inv(d, last)
    ensures Opened(d.cell) == Some(last)
  {
  }

  lemma NextKeepsInv(d: Device, last: Database, e: Event)
    requires Inv(d, last) && Room(d)
    ensures Inv(Next(d, e), LastAfter(d, last, e))
    ensures Completes(d, e) ==> LastAfter(d, last, e).counter > last.counter
  {
    match e {
      case Reboot => ReopenYieldsLast(d, last);
      case Change(op, fits, reached) =>
        if Applied(op, d.ram).Some? {
          ApplyIsMapUpdate(op, d.ram, []);
          FlushKeepsInv(d.(ram := Applied(op, d.ram).value), last, fits, reached);
        }
    }
  }

  lemma FlushKeepsInv(d: Device, last: Database, fits: bool, reached: Outcome)
    requires Inv(d, last) && Room(d)
    ensures Inv(Flushed(d, fits, reached), if fits && reached.Completed? then Flushed(d, fits, reached).ram else last)
    ensures Flushed(d, fits, reached).ram.counter == d.ram.counter + 1
  {
  }

  ghost predicate RunRoom(d: Device, events: seq<Event>)
    decreases |events|
  {
    events != [] ==> Room(d) && RunRoom(Next(d, events[0]), events[1..])
  }

  function Run(d: Device, events: seq<Event>): Device
    decreases |events|
  {
    if events == [] then d else Run(Next(d, events[0]), events[1..])
  }

  function RunLast(d: Device, last: Database, events: seq<Event>): Database
    decreases |events|
  {
    if events == [] then last else RunLast(Next(d, events[0]), LastAfter(d, last, events[0]), events[1..])
  }

  /** The counters of the completed flushes of a run, in order. */
  function Counters(d: Device, last: Database, events: seq<Event>): seq<nat>
    decreases |events|
  {
    if events == [] then []
    else
      var rest := Counters(Next(d, events[0]), LastAfter(d, last, events[0]), events[1..]);
      if Completes(d, events[0]) then [LastAfter(d, last, events[0]).counter] + rest else rest
  }

  predicate Rising(log: seq<nat>, low: nat, high: nat)
  {
    && low <= high
    && (forall x :: 0 <= x < |log| ==> low < log[x] <= high)
    && (forall x, y :: 0 <= x < y < |log| ==> log[x] < log[y])
  }

  lemma RisingCons(n: nat, rest: seq<nat>, low: nat, high: nat)
    requires low < n && Rising(rest, n, high)
    ensures Rising([n] + rest, low, high)
  {
  }

  /**
   After any run of changes, failed stores, power cuts and reboots: opening yields the
   database of the last completed flush, and completed flushes carry strictly increasing
   counters, none above the one in RAM.
   */
  lemma {:induction false} RunRecovers(d: Device, last: Database, events: seq<Event>)
    requires Inv(d, last) && RunRoom(d, events)
    ensures Opened(Run(d, events).cell) == Some(RunLast(d, last, events))
    ensures Rising(Counters(d, last, events), last.counter, RunLast(d, last, events).counter)
    ensures RunLast(d, last, events).counter <= Run(d, events).ram.counter
    decreases |events|
  {
    hide Inv, Next, LastAfter, Opened, Completes, Room;
    if events == [] {
      ReopenYieldsLast(d, last);
      assert last.counter <= d.ram.counter by { InvCounter(d, last); }
    } else {
      NextKeepsInv(d, last, events[0]);
      var d', last' := Next(d, events[0]), LastAfter(d, last, events[0]);
      RunRecovers(d', last', events[1..]);
      if Completes(d, events[0]) {
        RisingCons(last'.counter, Counters(d', last', events[1..]), last.counter,
                   RunLast(d', last', events[1..]).counter);
      } else {
        NoCompletion(d, last, events[0]);
      }
    }
  }

  lemma InvCounter(d: Device, last: Database)
    requires Inv(d, last)
    ensures last.counter <= d.ram.counter
  {
  }

  lemma NoCompletion(d: Device, last: Database, e: Event)
    requires !Completes(d, e)
    ensures LastAfter(d, last, e) == last
  {
  }

  /** A device out of the factory. */
  function Virgin(): Device { Device(EMPTY, Blank()) }

  lemma BlankInv()
    ensures Inv(Virgin(), EMPTY)
  {
  }

  /**
   From a blank region, after any run: opening yields the database of the last completed
   flush or the empty one, and the next flush, with or without a reboot first, takes a
   counter above every completed one, so no two completed records share a nonce.
   */
  lemma RecoversFromBlank(events: seq<Event>, fits: bool, reached: Outcome)
    requires RunRoom(Virgin(), events) && Run(Virgin(), events).ram.counter + 1 < U64
    ensures Opened(Run(Virgin(), events).cell) == Some(RunLast(Virgin(), EMPTY, events))
    ensures var d, done := Run(Virgin(), events), Counters(Virgin(), EMPTY, events);
            forall x :: 0 <= x < |done| ==>
              && done[x] < Flushed(d, fits, reached).ram.counter
              && done[x] < Flushed(Next(d, Reboot), fits, reached).ram.counter
    ensures var done := Counters(Virgin(), EMPTY, events);
            forall x, y :: 0 <= x < y < |done| ==> done[x] < done[y]
  {
    BlankInv();
    RunRecovers(Virgin(), EMPTY, events);
    hide Run, RunLast, Counters, Opened, RunRoom;
  }

  /** What an operation leaves as PIN hash and retry count, from those before it. */
  predicate PinMeant(op: Op, hash: Option<seq<Byte>>, retries: nat, hash': Option<seq<Byte>>, retries': nat)
  {
    && (op.SetPin? ==> hash' == Some(op.hash) && retries' == 8)
    && (op.ClearPin? || op.Reset? ==> hash' == None && retries' == 8)
    && (op.SetPinRetries? ==> hash' == hash && retries' == op.retries)
    && (op.Insert? || op.NextSignCount? || op.Remove? || op.Clear? ==> hash' == hash && retries' == retries)
  }

  /**
   A completed change is on flash: what reopening yields has the PIN state the operation
   means and, under every identifier, the credential it means.
   */
  lemma ChangeIsDurable(d: Device, last: Database, op: Op, reached: Outcome, id: seq<Byte>)
    requires Inv(d, last) && Room(d) && !Refuses(op, d.ram) && reached.Completed?
    ensures var db := Opened(Next(d, Event.Change(op, true, reached)).cell);
            && db.Some? && Lookup(db.value, id) == Meant(op, d.ram, id)
            && PinMeant(op, d.ram.pinHash, d.ram.pinRetries, db.value.pinHash, db.value.pinRetries)
  {
    RefusedIff(op, d.ram);
    ApplyIsMapUpdate(op, d.ram, id);
    var e := Event.Change(op, true, reached);
    NextKeepsInv(d, last, e);
    ReopenYieldsLast(Next(d, e), LastAfter(d, last, e));
    InvCache(d, last);
    hide Inv, Opened, Keyed.Lookup, Refuses, CacheOk, Meant, Stored;
  }

  lemma InvCache(d: Device, last: Database)
    requires Inv(d, last)
    ensures CacheOk(d.ram)
  {
  }

  /**
   A flush, a reboot and another flush: the second takes a later counter if and only if
   the first completed. Otherwise it counts on from the last completed flush, and the
   counter of the lost record, and with it its nonce, is taken again or even undercut.
   */
  lemma CounterAdvancesIff(d: Device, last: Database, fits: bool, reached: Outcome, fits': bool, reached': Outcome)
    requires Inv(d, last) && Room(d) && d.ram.counter + 2 < U64
    ensures var first := Flushed(d, fits, reached);
            var second := Flushed(Next(first, Reboot), fits', reached');
            && (second.ram.counter > first.ram.counter <==> fits && reached.Completed?)
            && (!(fits && reached.Completed?) ==> second.ram.counter == last.counter + 1)
  {
    FlushKeepsInv(d, last, fits, reached);
    var first := Flushed(d, fits, reached);
    ReopenYieldsLast(first, if fits && reached.Completed? then first.ram else last);
    InvCounter(d, last);
    hide Opened, Inv;
  }

  /** The store in RAM with its flash cell, as the firmware keeps it. */
  class Sealed {
    var cache: seq<Credential>
    var counter: nat
    var pinHash: Option<seq<Byte>>
    var pinRetries: nat
    var cell: Cell<Blob>

    function View(): Device
      reads this
    {
      Device(Database(cache, counter, pinHash, pinRetries), cell)
    }

    /** Scan both slots and select the state to boot from; `ok` is false on the storage error. */
    method Open() returns (ok: bool)
      modifies this
      ensures ok <==> Opened(old(cell)).Some?
      ensures cell == old(cell)
      ensures if ok then View().ram == Opened(old(cell)).value else View() == old(View())
    {
      var state, stateSequence := EMPTY, None;
      var failedSequence: Option<nat> := None;
      for index := 0 to 2
        invariant View() == old(View())
        invariant index == 0 ==> state == EMPTY && stateSequence.None? && failedSequence.None?
        invariant index == 1 ==> stateSequence == if Valid(cell.s0) then Some(cell.s0.sequence) else None
        invariant index == 1 ==> state == if Valid(cell.s0) then cell.s0.payload.db else EMPTY
        invariant index == 1 ==> failedSequence == if Fails(cell.s0) then Some(cell.s0.sequence) else None
        invariant index == 2 ==> failedSequence == NewestFailed(cell)
        invariant index == 2 && Selected(cell).None? ==> stateSequence.None? && state == EMPTY
        invariant index == 2 && Selected(cell).Some? ==> stateSequence == Some(At(cell, Selected(cell).value).sequence)
        invariant index == 2 && Selected(cell).Some? ==> state == At(cell, Selected(cell).value).payload.db
      {
        var slot: Slot<Blob> := At(cell, index);
        match slot {
          case Unreadable =>
          case Record(sequence, Holds(db)) =>
            if stateSequence.None? || db.counter > state.counter {
              state, stateSequence := db, Some(sequence);
            }
          case Record(sequence, _) =>
            if failedSequence.None? || sequence > failedSequence.value {
              failedSequence := Some(sequence);
            }
        }
      }
      if failedSequence.Some? && (stateSequence.None? || failedSequence.value > stateSequence.value) {
        return false;
      }
      cache, counter, pinHash, pinRetries := state.cache, state.counter, state.pinHash, state.pinRetries;
      ok := true;
    }

    method Flush(fits: bool, reached: Outcome) returns (ok: bool)
      modifies this
      ensures View() == Flushed(old(View()), fits, reached)
      ensures ok <==> fits && reached.Completed?
    {
      counter := (counter + 1) % U64;
      if !fits {
        return false;
      }
      cell := Stored(cell, Holds(Database(cache, counter, pinHash, pinRetries)), reached);
      ok := reached.Completed?;
    }

    /** Any of the mutators: change the RAM state, then flush it. */
    method Change(op: Op, fits: bool, reached: Outcome) returns (ok: bool)
      modifies this
      ensures View() == Next(old(View()), Event.Change(op, fits, reached))
      ensures ok <==> !Refuses(op, old(View()).ram) && fits && reached.Completed?
      ensures Refuses(op, old(View()).ram) ==> View() == old(View())
    {
      RefusedIff(op, View().ram);
      hide Refuses;
      var applied := Applied(op, Database(cache, counter, pinHash, pinRetries));
      if applied.None? {
        return false;
      }
      var db := applied.value;
      cache, counter, pinHash, pinRetries := db.cache, db.counter, db.pinHash, db.pinRetries;
      ok := Flush(fits, reached);
    }
  }
}
