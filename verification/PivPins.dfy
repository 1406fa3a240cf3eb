/**
 The PIN and PUK of the PIV applet over a store that may return anything and refuse any
 write. Every command is a function of the applet's PIN state and the store's answers;
 an audit beside it counts the wrong presentations since the last authorised refill.
 */
module PivPins {
  import opened Wrappers
  import opened Bytes
  import opened Pin
  import opened StatusWords

  const POLICY := Policy(6, 8, 3)

  datatype Which = PinRef | PukRef

  datatype Applet = Applet(pin: Guard, puk: Guard, pinVerified: bool)

  function Boot(): Applet
  {
    Applet(Guard(NewSlot(POLICY), POLICY.maxAttempts), Guard(NewSlot(POLICY), POLICY.maxAttempts), false)
  }

  function Get(a: Applet, w: Which): Guard { if w.PinRef? then a.pin else a.puk }

  function Put(a: Applet, w: Which, g: Guard): Applet { if w.PinRef? then a.(pin := g) else a.(puk := g) }

  /**
   A command with the store's answers: what the reads return on a selection, and whether
   the one write a mutating command makes is accepted.
   */
  datatype Command =
    | Select(pinRead: Option<seq<Byte>>, pukRead: Option<seq<Byte>>, mgmtOk: bool)
    | Verify(p1: nat, p2: nat, data: seq<Byte>, saved: bool)
    | Change(p1: nat, p2: nat, data: seq<Byte>, saved: bool)
    | ResetRetry(p1: nat, p2: nat, data: seq<Byte>, saved: bool)

  function Reference(p2: nat): Option<Which>
  {
    if p2 == 0x80 then Some(PinRef) else if p2 == 0x81 then Some(PukRef) else None
  }

  /** The length of a PIN once its 0xFF padding is stripped. */
  function EffectiveLen(padded: seq<Byte>): (n: nat)
    ensures n <= |padded| && (n > 0 ==> padded[n - 1] != 0xFF)
    ensures forall i :: n <= i < |padded| ==> padded[i] == 0xFF
  {
    if padded == [] then 0
    else if padded[|padded| - 1] != 0xFF then |padded|
    else EffectiveLen(padded[..|padded| - 1])
  }

  /** The tail of every mutating command. */
  function Finish(a: Applet, w: Which, mutated: bool, sw: Sw, saved: bool): (Applet, Sw)
  {
    if !mutated then (a, sw)
    else (Put(a, w, Anchored(Get(a, w), saved)), if saved then sw else NOT_ENOUGH_MEMORY)
  }

  /** A reload of one record, clamped to the floor; `None` when it does not read or decode. */
  function Reload(g: Guard, read: Option<seq<Byte>>): Option<Guard>
  {
    match read
    case None => None
    case Some(bytes) =>
      match Decoded(POLICY, bytes)
      case None => None
      case Some(s) => Some(g.(slot := Clamped(s, g.floor)))
  }

  function Next(h: Hash, a: Applet, c: Command): (Applet, Sw)
  {
    match c
    case Select(pinRead, pukRead, mgmtOk) =>
      var a := a.(pinVerified := false);
      (match Reload(a.pin, pinRead)
       case None => (a, NO_DIAGNOSIS)
       case Some(pin) =>
         match Reload(a.puk, pukRead)
         case None => (a.(pin := pin), NO_DIAGNOSIS)
         case Some(puk) => (a.(pin := pin, puk := puk), if mgmtOk then OK else NO_DIAGNOSIS))
    case Verify(p1, p2, data, saved) =>
      if p1 != 0 || Reference(p2).None? then (a, INCORRECT_PARAMETERS)
      else
        var w := Reference(p2).value;
        var g := Get(a, w);
        if data == [] then (a, RetriesLeft(g.slot.retries))
        else if |data| != 8 then (a, WRONG_LENGTH)
        else
          var (s, sw) := Verified(h, g.slot, data);
          var a' := Put(a, w, g.(slot := s));
          var a' := if w.PinRef? then a'.(pinVerified := sw == OK) else a';
          Finish(a', w, s.retries < g.slot.retries, sw, saved)
    case Change(p1, p2, data, saved) =>
      if p1 != 0 then (a, INCORRECT_PARAMETERS)
      else if Reference(p2).None? then (a, REFERENCED_DATA_NOT_FOUND)
      else if |data| != 16 then (a, WRONG_DATA)
      else if EffectiveLen(data[8..]) < POLICY.minLen then (a, CONDITIONS)
      else
        var w := Reference(p2).value;
        var g := Get(a, w);
        var (s, sw) := Changed(h, g.slot, data[..8], data[8..]);
        var a' := Put(a, w, g.(slot := s));
        var a' := if w.PinRef? && sw == OK then a'.(pinVerified := true) else a';
        Finish(a', w, sw == OK || s.retries < g.slot.retries, sw, saved)
    case ResetRetry(p1, p2, data, saved) =>
      if p1 != 0 || p2 != 0x80 then (a, INCORRECT_PARAMETERS)
      else if |data| != 16 then (a, WRONG_DATA)
      else
        var (puk, sw) := Verified(h, a.puk.slot, data[..8]);
        if sw != OK then Finish(a.(puk := a.puk.(slot := puk)), PukRef, puk.retries < a.puk.slot.retries, sw, saved)
        else if EffectiveLen(data[8..]) < POLICY.minLen then (a, CONDITIONS)
        else
          var (pin, sw) := Installed(h, a.pin.slot, data[8..]);
          Finish(a.(pin := a.pin.(slot := pin), pinVerified := false), PinRef, sw == OK, sw, saved)
  }

  // ----- the audit -----------------------------------------------------------------------------

  /** The presentation a command makes against a slot, when it reaches the comparison. */
  function Presented(c: Command, w: Which): Option<seq<Byte>>
  {
    match c
    case Verify(p1, p2, data, _) => if p1 == 0 && Reference(p2) == Some(w) && |data| == 8 then Some(data) else None
    case Change(p1, p2, data, _) =>
      if p1 == 0 && Reference(p2) == Some(w) && |data| == 16 && EffectiveLen(data[8..]) >= POLICY.minLen
      then Some(data[..8]) else None
    case ResetRetry(p1, p2, data, _) =>
      if w.PukRef? && p1 == 0 && p2 == 0x80 && |data| == 16 then Some(data[..8]) else None
    case Select(_, _, _) => None
  }

  predicate WrongAttempt(h: Hash, a: Applet, c: Command, w: Which)
  {
    Presented(c, w).Some? && Wrong(h, Get(a, w).slot, Presented(c, w).value)
  }

  /** A refill someone was entitled to: a change with the right PIN, or a reset with the right PUK. */
  predicate Refill(h: Hash, a: Applet, c: Command, w: Which)
  {
    || (c.Change? && Presented(c, w).Some? && Checked(Get(a, w).slot)
        && Matches(h, Get(a, w).slot, Presented(c, w).value))
    || (c.ResetRetry? && w.PinRef? && c.p1 == 0 && c.p2 == 0x80 && |c.data| == 16 && Checked(a.puk.slot)
        && Matches(h, a.puk.slot, c.data[..8]) && EffectiveLen(c.data[8..]) >= POLICY.minLen)
  }

  /** Wrong presentations compared against a slot since its last authorised refill. */
  function Spent(h: Hash, a: Applet, c: Command, w: Which, spent: nat): nat
  {
    if Refill(h, a, c, w) then 0 else if WrongAttempt(h, a, c, w) then spent + 1 else spent
  }

  /** The budget holds for both slots. */
  predicate Budget(a: Applet, pinSpent: nat, pukSpent: nat)
  {
    GuardOk(a.pin, POLICY, pinSpent) && GuardOk(a.puk, POLICY, pukSpent)
  }

  predicate BudgetAfter(h: Hash, a: Applet, c: Command, pinSpent: nat, pukSpent: nat)
  {
    Budget(Next(h, a, c).0, Spent(h, a, c, PinRef, pinSpent), Spent(h, a, c, PukRef, pukSpent))
  }

  lemma SelectKeepsBudget(h: Hash, a: Applet, c: Command, pinSpent: nat, pukSpent: nat)
    requires Budget(a, pinSpent, pukSpent) && c.Select?
    ensures BudgetAfter(h, a, c, pinSpent, pukSpent)
  {
    hide EffectiveLen, Encoded, Decoded;
  }

  lemma VerifyKeepsBudget(h: Hash, a: Applet, c: Command, pinSpent: nat, pukSpent: nat)
    requires Budget(a, pinSpent, pukSpent) && c.Verify?
    ensures BudgetAfter(h, a, c, pinSpent, pukSpent)
  {
    hide EffectiveLen, Encoded, Decoded;
  }

  lemma ChangeKeepsBudget(h: Hash, a: Applet, c: Command, pinSpent: nat, pukSpent: nat)
    requires Budget(a, pinSpent, pukSpent) && c.Change?
    ensures BudgetAfter(h, a, c, pinSpent, pukSpent)
  {
    hide EffectiveLen, Encoded, Decoded, Anchored;
    if Reference(c.p2).Some? && |c.data| == 16 && c.p1 == 0 && EffectiveLen(c.data[8..]) >= POLICY.minLen {
      var w := Reference(c.p2).value;
      var s := Changed(h, Get(a, w).slot, c.data[..8], c.data[8..]).0;
      AnchorKeeps(Get(a, w).(slot := s), POLICY,
                  Spent(h, a, c, w, if w.PinRef? then pinSpent else pukSpent), c.saved);
    }
  }

  lemma ResetKeepsBudget(h: Hash, a: Applet, c: Command, pinSpent: nat, pukSpent: nat)
    requires Budget(a, pinSpent, pukSpent) && c.ResetRetry?
    ensures BudgetAfter(h, a, c, pinSpent, pukSpent)
  {
    hide EffectiveLen, Encoded, Decoded;
  }

  /** Whatever the store answers, spent attempts plus counter, and plus floor, stay within the budget. */
  lemma NextKeepsBudget(h: Hash, a: Applet, c: Command, pinSpent: nat, pukSpent: nat)
    requires Budget(a, pinSpent, pukSpent)
    ensures BudgetAfter(h, a, c, pinSpent, pukSpent)
  {
    hide BudgetAfter, Budget;
    match c {
      case Select(_, _, _) => SelectKeepsBudget(h, a, c, pinSpent, pukSpent);
      case Verify(_, _, _, _) => VerifyKeepsBudget(h, a, c, pinSpent, pukSpent);
      case Change(_, _, _, _) => ChangeKeepsBudget(h, a, c, pinSpent, pukSpent);
      case ResetRetry(_, _, _, _) => ResetKeepsBudget(h, a, c, pinSpent, pukSpent);
    }
  }

  /** The audit of a whole run. */
  function RunSpent(h: Hash, a: Applet, cs: seq<Command>, w: Which, spent: nat): nat
    decreases |cs|
  {
    if cs == [] then spent else RunSpent(h, Next(h, a, cs[0]).0, cs[1..], w, Spent(h, a, cs[0], w, spent))
  }

  function Run(h: Hash, a: Applet, cs: seq<Command>): Applet
    decreases |cs|
  {
    if cs == [] then a else Run(h, Next(h, a, cs[0]).0, cs[1..])
  }

  /**
   In one power session, over every sequence of commands, re-selections and refused
   writes, at most three wrong presentations are compared against a slot between two
   authorised refills.
   */
  lemma {:induction false} RunKeepsBudget(h: Hash, a: Applet, cs: seq<Command>, pinSpent: nat, pukSpent: nat)
    requires Budget(a, pinSpent, pukSpent)
    ensures GuardOk(Run(h, a, cs).pin, POLICY, RunSpent(h, a, cs, PinRef, pinSpent))
    ensures GuardOk(Run(h, a, cs).puk, POLICY, RunSpent(h, a, cs, PukRef, pukSpent))
    ensures RunSpent(h, a, cs, PinRef, pinSpent) <= 3 && RunSpent(h, a, cs, PukRef, pukSpent) <= 3
    decreases |cs|
  {
    if cs != [] {
      hide Next, Spent;
      NextKeepsBudget(h, a, cs[0], pinSpent, pukSpent);
      RunKeepsBudget(h, Next(h, a, cs[0]).0, cs[1..],
                     Spent(h, a, cs[0], PinRef, pinSpent), Spent(h, a, cs[0], PukRef, pukSpent));
    }
  }

  lemma SessionBudget(h: Hash, cs: seq<Command>)
    ensures RunSpent(h, Boot(), cs, PinRef, 0) <= 3 && RunSpent(h, Boot(), cs, PukRef, 0) <= 3
  {
    RunKeepsBudget(h, Boot(), cs, 0, 0);
  }

  /** A blocked slot stays blocked, against every presentation, until someone entitled refills it. */
  lemma BlockedUntilRefill(h: Hash, a: Applet, c: Command, w: Which)
    requires Budget(a, 0, 0) && Get(a, w).slot.retries == 0 && Get(a, w).floor == 0
    requires !Refill(h, a, c, w)
    ensures Get(Next(h, a, c).0, w).slot.retries == 0 && Get(Next(h, a, c).0, w).floor == 0
  {
    hide EffectiveLen, Encoded, Decoded;
  }

  /** No command of the run is an authorised refill of the slot. */
  predicate NoRefill(h: Hash, a: Applet, cs: seq<Command>, w: Which)
    decreases |cs|
  {
    cs != [] ==> !Refill(h, a, cs[0], w) && NoRefill(h, Next(h, a, cs[0]).0, cs[1..], w)
  }

  lemma {:induction false} BlockedOverRun(h: Hash, a: Applet, cs: seq<Command>, w: Which)
    requires Budget(a, 0, 0) && Get(a, w).slot.retries == 0 && Get(a, w).floor == 0
    requires NoRefill(h, a, cs, w)
    ensures Get(Run(h, a, cs), w).slot.retries == 0
    decreases |cs|
  {
    if cs != [] {
      hide Next, Spent, Refill;
      BlockedUntilRefill(h, a, cs[0], w);
      NextKeepsBudget(h, a, cs[0], 0, 0);
      BudgetWithout(h, a, cs[0]);
      BlockedOverRun(h, Next(h, a, cs[0]).0, cs[1..], w);
    }
  }

  /**
   Once three wrong presentations were compared since the last refill, the slot is
   blocked, and no run without an authorised refill, whatever the store returns, unblocks it.
   */
  lemma SpentSlotStaysBlocked(h: Hash, cs: seq<Command>, more: seq<Command>, w: Which)
    requires RunSpent(h, Boot(), cs, w, 0) == 3
    requires NoRefill(h, Run(h, Boot(), cs), more, w)
    ensures Get(Run(h, Boot(), cs), w).slot.retries == 0
    ensures Get(Run(h, Run(h, Boot(), cs), more), w).slot.retries == 0
  {
    hide Run, RunSpent, NoRefill;
    RunKeepsBudget(h, Boot(), cs, 0, 0);
    var a := Run(h, Boot(), cs);
    assert Budget(a, 0, 0);
    BlockedOverRun(h, a, more, w);
  }

  // ----- what a refill installs ------------------------------------------------------------------

  /** VERIFY of a slot, as the host sends it. */
  function Presenting(w: Which, pin: seq<Byte>, saved: bool): Command
  {
    Verify(0, if w.PinRef? then 0x80 else 0x81, pin, saved)
  }

  function OtherOf(w: Which): Which { if w.PinRef? then PukRef else PinRef }

  /**
   A refill installs the last eight octets the host sent, with all attempts, and leaves the
   hash of the other slot alone: it is the new PIN of CHANGE and of RESET RETRY COUNTER.
   */
  lemma RefillInstalls(h: Hash, a: Applet, c: Command, w: Which)
    requires Budget(a, 0, 0) && Refill(h, a, c, w)
    ensures |c.data| == 16
    ensures var b := Next(h, a, c).0;
            && Get(b, w).slot == Slot(POLICY, Some(h(c.data[8..])), 3)
            && Get(b, OtherOf(w)).slot == Get(a, OtherOf(w)).slot
  {
    hide EffectiveLen, Encoded, Decoded;
  }

  /** Right after it the new value verifies, and with an injective hash no other eight octets do. */
  lemma RefilledPinVerifies(h: Hash, a: Applet, c: Command, w: Which, pin: seq<Byte>, saved: bool)
    requires Budget(a, 0, 0) && Refill(h, a, c, w) && |pin| == 8
    ensures |c.data| == 16
    ensures pin == c.data[8..] ==> Next(h, Next(h, a, c).0, Presenting(w, pin, saved)).1 == OK
    ensures Injective(h) && pin != c.data[8..] ==>
      Next(h, Next(h, a, c).0, Presenting(w, pin, saved)).1 == if saved then RetriesLeft(2) else NOT_ENOUGH_MEMORY
  {
    RefillInstalls(h, a, c, w);
    var b := Next(h, a, c).0;
    hide Refill, EffectiveLen, Changed, Installed;
    PresentedIs(h, b, w, pin, saved);
  }

  /** The answer to eight octets against a slot with three attempts left. */
  lemma PresentedIs(h: Hash, b: Applet, w: Which, pin: seq<Byte>, saved: bool)
    requires |pin| == 8 && Get(b, w).slot.hash.Some? && Get(b, w).slot.retries == 3
    ensures Next(h, b, Presenting(w, pin, saved)).1 ==
      if h(pin) == Get(b, w).slot.hash.value then OK else if saved then RetriesLeft(2) else NOT_ENOUGH_MEMORY
  {
    hide EffectiveLen, Changed, Installed, Anchored;
  }

  /**
   When the PIN counts as verified: after VERIFY, exactly if the value was right and attempts
   were left; after CHANGE, if the old value was right; never after SELECT or after a PUK
   reset the PIN; and no other command touches the flag.
   */
  lemma PinFlagIff(h: Hash, a: Applet, c: Command)
    requires a.pin.slot.policy == POLICY
    ensures Next(h, a, c).0.pinVerified <==>
      match c
      case Select(_, _, _) => false
      case Verify(p1, p2, data, _) =>
        if p1 == 0 && p2 == 0x80 && |data| == 8 then Checked(a.pin.slot) && Matches(h, a.pin.slot, data)
        else a.pinVerified
      case Change(p1, p2, data, _) =>
        || a.pinVerified
        || (p1 == 0 && p2 == 0x80 && |data| == 16 && EffectiveLen(data[8..]) >= 6
            && Checked(a.pin.slot) && Matches(h, a.pin.slot, data[..8]))
      case ResetRetry(p1, p2, data, _) =>
        && a.pinVerified
        && !(p1 == 0 && p2 == 0x80 && |data| == 16 && EffectiveLen(data[8..]) >= 6
             && Checked(a.puk.slot) && Matches(h, a.puk.slot, data[..8]))
  {
    hide EffectiveLen, Anchored, Reload;
  }

  /** VERIFY with the right value answers 9000, sets the flag for the PIN, and costs nothing. */
  lemma RightPinAccepted(h: Hash, a: Applet, w: Which, pin: seq<Byte>, saved: bool)
    requires |pin| == 8 && Checked(Get(a, w).slot) && Matches(h, Get(a, w).slot, pin)
    ensures Next(h, a, Presenting(w, pin, saved)) == (if w.PinRef? then a.(pinVerified := true) else a, OK)
  {
    hide EffectiveLen, Changed, Installed, Anchored;
  }

  // ----- agreement with the store -----------------------------------------------------------

  /** The command writes a slot's record exactly when it refills it or spends an attempt. */
  predicate Writes(h: Hash, a: Applet, c: Command, w: Which)
  {
    Refill(h, a, c, w) || WrongAttempt(h, a, c, w)
  }

  predicate Saved(c: Command) { !c.Select? && c.saved }

  /** The answer and the floor tell what happened to the record. */
  predicate Settled(h: Hash, a: Applet, c: Command, w: Which)
  {
    var (a', sw) := Next(h, a, c);
    var g := Get(a', w);
    && (!Writes(h, a, c, w) ==> g == Get(a, w))
    && (Writes(h, a, c, w) && !Saved(c) ==> sw == NOT_ENOUGH_MEMORY)
    && (Writes(h, a, c, w) && Saved(c) ==> (sw == OK || IsRetry(sw)) && g.floor == g.slot.retries)
  }

  lemma VerifySettles(h: Hash, a: Applet, c: Command, w: Which)
    requires Budget(a, 0, 0) && c.Verify?
    ensures Settled(h, a, c, w)
  {
    hide EffectiveLen;
  }

  lemma ChangeSettles(h: Hash, a: Applet, c: Command, w: Which)
    requires Budget(a, 0, 0) && c.Change?
    ensures Settled(h, a, c, w)
  {
    hide EffectiveLen;
  }

  lemma ResetSettles(h: Hash, a: Applet, c: Command, w: Which)
    requires Budget(a, 0, 0) && c.ResetRetry?
    ensures Settled(h, a, c, w)
  {
    hide EffectiveLen;
  }

  /**
   A command that writes a slot and is answered `9000` or `63Cx` leaves slot, record and
   floor in agreement, so a re-select restores exactly that slot; when the write is
   refused the answer is always `6A84`. A command that does not write leaves the slot and
   the floor alone.
   */
  lemma MutationsAreSettled(h: Hash, a: Applet, c: Command, w: Which)
    requires Budget(a, 0, 0) && !c.Select?
    ensures var (a', sw) := Next(h, a, c);
      var g := Get(a', w);
      && (!Writes(h, a, c, w) ==> g == Get(a, w))
      && (Writes(h, a, c, w) && !Saved(c) ==> sw == NOT_ENOUGH_MEMORY)
      && (Writes(h, a, c, w) && Saved(c) ==>
            && (sw == OK || IsRetry(sw)) && g.floor == g.slot.retries
            && SlotOk(g.slot) && Reload(g, Some(Encoded(g.slot))) == Some(g))
  {
    hide Next, Encoded, Decoded, Writes;
    match c {
      case Verify(_, _, _, _) => VerifySettles(h, a, c, w);
      case Change(_, _, _, _) => ChangeSettles(h, a, c, w);
      case ResetRetry(_, _, _, _) => ResetSettles(h, a, c, w);
    }
    NextKeepsBudget(h, a, c, 0, 0);
    BudgetWithout(h, a, c);
    DecodeInvertsEncode(Get(Next(h, a, c).0, w).slot);
  }

  lemma BudgetWithout(h: Hash, a: Applet, c: Command)
    requires BudgetAfter(h, a, c, 0, 0)
    ensures Budget(Next(h, a, c).0, 0, 0)
  {
    hide Next, Spent;
  }

  /** The applet with the record an honest store holds for a slot. */
  predicate Agrees(g: Guard, record: Option<seq<Byte>>)
  {
    SlotOk(g.slot) && record == Some(Encoded(g.slot)) && g.slot.retries <= g.floor <= POLICY.maxAttempts
  }

  function RecordAfter(h: Hash, a: Applet, c: Command, w: Which, record: Option<seq<Byte>>): Option<seq<Byte>>
    requires Budget(Next(h, a, c).0, 0, 0)
  {
    if Writes(h, a, c, w) && Saved(c) then Some(Encoded(Get(Next(h, a, c).0, w).slot)) else record
  }

  /** Over an honest store that takes its writes, every command keeps applet and records in agreement. */
  lemma HonestAgreement(h: Hash, a: Applet, c: Command, pin: Option<seq<Byte>>, puk: Option<seq<Byte>>)
    requires Budget(a, 0, 0) && Agrees(a.pin, pin) && Agrees(a.puk, puk)
    requires if c.Select? then c.pinRead == pin && c.pukRead == puk else c.saved
    ensures Budget(Next(h, a, c).0, 0, 0)
    ensures Agrees(Next(h, a, c).0.pin, RecordAfter(h, a, c, PinRef, pin))
    ensures Agrees(Next(h, a, c).0.puk, RecordAfter(h, a, c, PukRef, puk))
    ensures c.Select? ==> Next(h, a, c).0.pin == a.pin && Next(h, a, c).0.puk == a.puk
  {
    hide EffectiveLen, Encoded, Decoded;
    NextKeepsBudget(h, a, c, 0, 0);
    BudgetWithout(h, a, c);
    if c.Select? {
      DecodeInvertsEncode(a.pin.slot);
      DecodeInvertsEncode(a.puk.slot);
    } else {
      hide Next;
      MutationsAreSettled(h, a, c, PinRef);
      MutationsAreSettled(h, a, c, PukRef);
    }
  }

  // ----- the applet's fields and handlers ----------------------------------------------------

  class Piv {
    var pin: Slot
    var puk: Slot
    var pinFloor: nat
    var pukFloor: nat
    var pinVerified: bool

    function View(): Applet
      reads this
    {
      Applet(Guard(pin, pinFloor), Guard(puk, pukFloor), pinVerified)
    }

    constructor ()
      ensures View() == Boot()
    {
      pin, puk := NewSlot(POLICY), NewSlot(POLICY);
      pinFloor, pukFloor, pinVerified := POLICY.maxAttempts, POLICY.maxAttempts, false;
    }

    /** Anchor or lower the floor of one slot after its save. */
    method PersistPin(w: Which, saved: bool)
      modifies this
      ensures View() == Put(old(View()), w, Anchored(Get(old(View()), w), saved))
    {
      if w.PinRef? {
        if saved { pinFloor := pin.retries; } else if pin.retries < pinFloor { pinFloor := pin.retries; }
      } else {
        if saved { pukFloor := puk.retries; } else if puk.retries < pukFloor { pukFloor := puk.retries; }
      }
    }

    method FinishMutation(w: Which, mutated: bool, result: Sw, saved: bool) returns (sw: Sw)
      modifies this
      ensures (View(), sw) == Finish(old(View()), w, mutated, result, saved)
    {
      if mutated {
        PersistPin(w, saved);
        if !saved {
          return NOT_ENOUGH_MEMORY;
        }
      }
      return result;
    }

    method SelectApplet(pinRead: Option<seq<Byte>>, pukRead: Option<seq<Byte>>, mgmtOk: bool) returns (sw: Sw)
      modifies this
      ensures forall h: Hash :: (View(), sw) == Next(h, old(View()), Select(pinRead, pukRead, mgmtOk))
    {
      pinVerified := false;
      if pinRead.None? { return NO_DIAGNOSIS; }
      var newPin := Decoded(POLICY, pinRead.value);
      if newPin.None? { return NO_DIAGNOSIS; }
      pin := Clamped(newPin.value, pinFloor);
      if pukRead.None? { return NO_DIAGNOSIS; }
      var newPuk := Decoded(POLICY, pukRead.value);
      if newPuk.None? { return NO_DIAGNOSIS; }
      puk := Clamped(newPuk.value, pukFloor);
      return if mgmtOk then OK else NO_DIAGNOSIS;
    }

    method VerifyPin(h: Hash, p1: nat, p2: nat, data: seq<Byte>, saved: bool) returns (sw: Sw)
      modifies this
      ensures (View(), sw) == Next(h, old(View()), Verify(p1, p2, data, saved))
    {
      if p1 != 0 { return INCORRECT_PARAMETERS; }
      if p2 != 0x80 && p2 != 0x81 { return INCORRECT_PARAMETERS; }
      var w := if p2 == 0x80 then PinRef else PukRef;
      var slot := if w.PinRef? then pin else puk;
      if data == [] { return RetriesLeft(slot.retries); }
      if |data| != 8 { return WRONG_LENGTH; }
      var (s, result) := Verified(h, slot, data);
      if w.PinRef? {
        pin, pinVerified := s, result == OK;
      } else {
        puk := s;
      }
      sw := FinishMutation(w, s.retries < slot.retries, result, saved);
    }

    method ChangeReferenceData(h: Hash, p1: nat, p2: nat, data: seq<Byte>, saved: bool) returns (sw: Sw)
      modifies this
      ensures (View(), sw) == Next(h, old(View()), Change(p1, p2, data, saved))
    {
      if p1 != 0 { return INCORRECT_PARAMETERS; }
      if p2 != 0x80 && p2 != 0x81 { return REFERENCED_DATA_NOT_FOUND; }
      if |data| != 16 { return WRONG_DATA; }
      if EffectiveLen(data[8..]) < POLICY.minLen { return CONDITIONS; }
      var w := if p2 == 0x80 then PinRef else PukRef;
      var slot := if w.PinRef? then pin else puk;
      var (s, result) := Changed(h, slot, data[..8], data[8..]);
      if w.PinRef? {
        pin := s;
        if result == OK { pinVerified := true; }
      } else {
        puk := s;
      }
      sw := FinishMutation(w, result == OK || s.retries < slot.retries, result, saved);
    }

    method ResetRetryCounter(h: Hash, p1: nat, p2: nat, data: seq<Byte>, saved: bool) returns (sw: Sw)
      modifies this
      ensures (View(), sw) == Next(h, old(View()), ResetRetry(p1, p2, data, saved))
    {
      if p1 != 0 || p2 != 0x80 { return INCORRECT_PARAMETERS; }
      if |data| != 16 { return WRONG_DATA; }
      var before := puk.retries;
      var (s, result) := Verified(h, puk, data[..8]);
      puk := s;
      if result != OK {
        sw := FinishMutation(PukRef, puk.retries < before, result, saved);
        return;
      }
      if EffectiveLen(data[8..]) < POLICY.minLen { return CONDITIONS; }
      var (t, installed) := Installed(h, pin, data[8..]);
      pin, pinVerified := t, false;
      sw := FinishMutation(PinRef, installed == OK, installed, saved);
    }
  }
}
