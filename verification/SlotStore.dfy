/**
 The two-slot record store under every sealed store.

 A slot is either unreadable (blank, torn or corrupt) or a record with a sequence
 number and a payload. A store scans for the newest readable record and rewrites
 the other slot, so an interrupted store can only damage the slot it was writing.
 */
module SlotStore {
  import opened Wrappers
  import opened Bytes

  /** The 32-bit sequence number of a record. */
  type Sequence = n: nat | n < U32

  datatype Slot<+P> = Unreadable | Record(sequence: Sequence, payload: P)

  datatype Cell<+P> = Cell(s0: Slot<P>, s1: Slot<P>)

  /** How far a store got: nothing touched, the slot destroyed, or the record written. */
  datatype Outcome = Untouched | Torn | Completed

  function Blank<P>(): Cell<P> { Cell(Unreadable, Unreadable) }

  /** The index and sequence of the newest readable record; the first slot wins a tie. */
  function Newest<P>(c: Cell<P>): (best: Option<nat>)
    ensures best.Some? ==> best.value < 2
  {
    if c.s0.Record? && (c.s1.Unreadable? || c.s1.sequence <= c.s0.sequence) then Some(0)
    else if c.s1.Record? then Some(1)
    else None
  }

  function At<P>(c: Cell<P>, index: nat): Slot<P>
    requires index < 2
  {
    if index == 0 then c.s0 else c.s1
  }

  function With<P>(c: Cell<P>, index: nat, s: Slot<P>): Cell<P>
    requires index < 2
  {
    if index == 0 then Cell(s, c.s1) else Cell(c.s0, s)
  }

  /** The slot a store rewrites: the other one, or the first of a blank cell. */
  function Inactive<P>(c: Cell<P>): (i: nat)
    ensures i < 2
  {
    match Newest(c)
    case Some(best) => 1 - best
    case None => 0
  }

  function NextSequence<P>(c: Cell<P>): Sequence
  {
    match Newest(c)
    case Some(best) => (if At(c, best).Record? then At(c, best).sequence + 1 else 1) % U32
    case None => 1
  }

  /** The cell after a store of `payload` that got as far as `outcome`. */
  function Stored<P>(c: Cell<P>, payload: P, outcome: Outcome): Cell<P>
  {
    match outcome
    case Untouched => c
    case Torn => With(c, Inactive(c), Unreadable)
    case Completed => With(c, Inactive(c), Record(NextSequence(c), payload))
  }

  /** The payload `load` resolves to. */
  function Loaded<P>(c: Cell<P>): Option<P>
  {
    match Newest(c)
    case Some(best) => if At(c, best).Record? then Some(At(c, best).payload) else None
    case None => None
  }

  /** Two readable records never share a sequence number. */
  predicate Ordered<P>(c: Cell<P>)
  {
    c.s0.Record? && c.s1.Record? ==> c.s0.sequence != c.s1.sequence
  }

  /** Storing once more does not wrap the 32-bit sequence of the newest record. */
  predicate Headroom<P>(c: Cell<P>)
  {
    Newest(c).Some? && At(c, Newest(c).value).Record? ==> At(c, Newest(c).value).sequence + 1 < U32
  }

  /**
   Atomicity, for every cell: a completed store becomes the newest record if and only if
   the sequence did not wrap, and then its payload loads; in every other case what loaded
   before still loads. The record that was newest is never touched.
   */
  lemma StoreIsAtomic<P>(c: Cell<P>, payload: P, outcome: Outcome)
    ensures Ordered(c) ==> Ordered(Stored(c, payload, outcome))
    ensures Newest(Stored(c, payload, Completed)) == Some(Inactive(c)) <==> Headroom(c)
    ensures Loaded(Stored(c, payload, outcome)) ==
            if outcome.Completed? && Headroom(c) then Some(payload) else Loaded(c)
    ensures Newest(c).Some? ==>
      At(Stored(c, payload, outcome), Newest(c).value) == At(c, Newest(c).value)
  {
  }

  /** With headroom the next sequence is above every sequence in the cell. */
  lemma NextIsAbove<P>(c: Cell<P>)
    requires Headroom(c)
    ensures c.s0.Record? ==> c.s0.sequence < NextSequence(c)
    ensures c.s1.Record? ==> c.s1.sequence < NextSequence(c)
  {
  }

  /** The store as the firmware runs it: two array slots, scanned and rewritten in place. */
  class Slots<P(0)> {
    var slots: array<Slot<P>>

    ghost predicate Valid()
      reads this
    {
      slots.Length == 2
    }

    ghost function Contents(): Cell<P>
      reads this, slots
      requires Valid()
    {
      Cell(slots[0], slots[1])
    }

    constructor ()
      ensures Valid() && fresh(slots) && Contents() == Blank()
    {
      slots := new Slot<P>[2](i => Unreadable);
    }

    method Scan() returns (best: Option<(nat, nat)>)
      requires Valid()
      ensures best.None? <==> Newest(Contents()).None?
      ensures best.Some? ==>
        && Newest(Contents()) == Some(best.value.1)
        && slots[best.value.1].Record? && slots[best.value.1].sequence == best.value.0
    {
      best := None;
      for index := 0 to 2
        invariant index == 0 ==> best.None?
        invariant index == 1 ==> best == if slots[0].Record? then Some((slots[0].sequence, 0)) else None
        invariant index == 2 ==>
          && (best.None? <==> slots[0].Unreadable? && slots[1].Unreadable?)
          && (best.Some? ==>
                && best.value.1 < 2 && slots[best.value.1] .Record?
                && slots[best.value.1].sequence == best.value.0
                && Newest(Contents()) == Some(best.value.1))
      {
        match slots[index] {
          case Unreadable =>
          case Record(sequence, _) =>
            if best.None? || sequence > best.value.0 {
              best := Some((sequence, index));
            }
        }
      }
    }

    method Load() returns (payload: Option<P>)
      requires Valid()
      ensures payload == Loaded(Contents())
    {
      var best := Scan();
      if best.None? {
        return None;
      }
      payload := Some(slots[best.value.1].payload);
    }

    /** `reached` is how far the flash operations got before power or the chip failed. */
    method Store(payload: P, reached: Outcome) returns (ok: bool)
      requires Valid()
      modifies slots
      ensures Valid() && slots == old(slots)
      ensures Contents() == Stored(old(Contents()), payload, reached)
      ensures ok <==> reached.Completed?
    {
      var best := Scan();
      var sequence: Sequence, inactive := 1, 0;
      if best.Some? {
        sequence, inactive := (best.value.0 + 1) % U32, 1 - best.value.1;
      }
      if reached.Untouched? {
        return false;
      }
      slots[inactive] := Unreadable;
      if reached.Torn? {
        return false;
      }
      slots[inactive] := Record(sequence, payload);
      ok := true;
    }
  }
}
