/**
 PW1 and PW3 of the OpenPGP applet over a store that may return anything and refuse any
 write. One save serialises both slots, so it moves both session floors; a load that
 fails falls back to the default PINs, clamped to the floors.
 */
module PgpPins {
  import opened Wrappers
  import opened Bytes
  import opened Pin
  import opened StatusWords

  const POLICY := Policy(6, 127, 3)
  /** "123456" and "12345678". */
  const DEFAULT_PW1: seq<Byte> := [0x31, 0x32, 0x33, 0x34, 0x35, 0x36]
  const DEFAULT_PW3: seq<Byte> := [0x31, 0x32, 0x33, 0x34, 0x35, 0x36, 0x37, 0x38]

  datatype Which = Pw1 | Pw3

  datatype Applet = Applet(pw1: Guard, pw3: Guard, signVerified: bool, otherVerified: bool, adminVerified: bool)

  function Boot(): Applet
  {
    var g := Guard(NewSlot(POLICY), POLICY.maxAttempts);
    Applet(g, g, false, false, false)
  }

  function Get(a: Applet, w: Which): Guard { if w.Pw1? then a.pw1 else a.pw3 }
  function WithSlot(a: Applet, w: Which, s: Slot): Applet
  {
    if w.Pw1? then a.(pw1 := a.pw1.(slot := s)) else a.(pw3 := a.pw3.(slot := s))
  }

  /** The two PIN fields of a loaded state, and whether the rest of it decodes. */
  datatype StateRead = StateRead(pw1: seq<Byte>, pw3: seq<Byte>, restOk: bool)

  datatype Command =
    | Select(read: Option<StateRead>)
    | Verify(p2: nat, data: seq<Byte>, saved: bool)
    | Change(p2: nat, data: seq<Byte>, saved: bool)
    | ResetRetry(p1: nat, p2: nat, data: seq<Byte>, saved: bool)
    | PutData(accepted: bool, saved: bool)

  /** Persist the state: both floors follow one save. */
  function Persisted(a: Applet, saved: bool): Applet
  {
    a.(pw1 := Anchored(a.pw1, saved), pw3 := Anchored(a.pw3, saved))
  }

  function Settle(a: Applet, sw: Sw, saved: bool): (Applet, Sw)
  {
    (Persisted(a, saved), if saved then sw else NOT_ENOUGH_MEMORY)
  }

  /** The slot a reload leaves: the stored one or the default PIN, clamped to the floor. */
  function Loaded(h: Hash, a: Applet, read: Option<StateRead>): Applet
    requires SlotOk(a.pw1.slot) && SlotOk(a.pw3.slot)
    requires a.pw1.slot.policy == POLICY && a.pw3.slot.policy == POLICY
  {
    var one := if read.Some? then Decoded(POLICY, read.value.pw1) else None;
    var three := if read.Some? then Decoded(POLICY, read.value.pw3) else None;
    if read.Some? && read.value.restOk && one.Some? && three.Some? then
      a.(pw1 := a.pw1.(slot := Clamped(one.value, a.pw1.floor)),
         pw3 := a.pw3.(slot := Clamped(three.value, a.pw3.floor)))
    else
      a.(pw1 := a.pw1.(slot := Clamped(Installed(h, a.pw1.slot, DEFAULT_PW1).0, a.pw1.floor)),
         pw3 := a.pw3.(slot := Clamped(Installed(h, a.pw3.slot, DEFAULT_PW3).0, a.pw3.floor)))
  }

  predicate Well(a: Applet)
  {
    SlotOk(a.pw1.slot) && SlotOk(a.pw3.slot) && a.pw1.slot.policy == POLICY && a.pw3.slot.policy == POLICY
  }

  /** The user change: find the current half, then change; a miss costs one attempt. */
  function ChangedPw1(h: Hash, s: Slot, body: seq<Byte>): (Slot, Sw)
    requires InWindow(s.policy, body)
  {
    var (s', r) := Resolved(h, s, body);
    match r
    case Split(k) => if k <= |body| then Changed(h, s', body[..k], body[k..]) else (s', WRONG_DATA)
    case NoSplit => (s', RetriesLeft(s'.retries))
    case Refused(sw) => (s', sw)
  }

  function Next(h: Hash, a: Applet, c: Command): (Applet, Sw)
    requires Well(a)
  {
    match c
    case Select(read) =>
      (Loaded(h, a, read).(signVerified := false, otherVerified := false, adminVerified := false), OK)
    case Verify(p2, data, saved) =>
      if p2 != 0x81 && p2 != 0x82 && p2 != 0x83 then (a, INCORRECT_PARAMETERS)
      else
        var w := if p2 == 0x83 then Pw3 else Pw1;
        var s := Get(a, w).slot;
        if data == [] then (a, if s.hash.Some? && s.retries == 0 then BLOCKED else RetriesLeft(s.retries))
        else
          var (s', sw) := Verified(h, s, data);
          if sw == OK then
            (a.(signVerified := a.signVerified || p2 == 0x81, otherVerified := a.otherVerified || p2 == 0x82,
                adminVerified := a.adminVerified || p2 == 0x83), OK)
          else if !IsRetry(sw) then (a, sw)
          else Settle(WithSlot(a, w, s'), sw, saved)
    case Change(p2, data, saved) =>
      if p2 != 0x81 && p2 != 0x82 && p2 != 0x83 then (a, INCORRECT_PARAMETERS)
      else if p2 == 0x83 then
        if !a.adminVerified then (a, SECURITY_STATUS)
        else if |data| != 16 then (a, WRONG_DATA)
        else
          var (s, sw) := Changed(h, a.pw3.slot, data[..8], data[8..]);
          Settle(WithSlot(a, Pw3, s), sw, saved)
      else if !InWindow(POLICY, data) then (a, WRONG_DATA)
      else
        var (s, sw) := ChangedPw1(h, a.pw1.slot, data);
        Settle(WithSlot(a, Pw1, s), sw, saved)
    case ResetRetry(p1, p2, data, saved) =>
      if p1 != 0x02 || p2 != 0x81 then (a, if p1 == 0 then FUNCTION_NOT_SUPPORTED else INCORRECT_PARAMETERS)
      else if !a.adminVerified then (a, SECURITY_STATUS)
      else if |data| != 8 then (a, WRONG_DATA)
      else
        var (s, sw) := Installed(h, a.pw1.slot, data);
        Settle(WithSlot(a, Pw1, s), sw, saved)
    case PutData(accepted, saved) =>
      if !a.adminVerified then (a, SECURITY_STATUS)
      else if !accepted then (a, WRONG_DATA)
      else Settle(a, OK, saved)
  }

  // ----- the audit -------------------------------------------------------------------------------

  /** A presentation compared against a slot and found wrong. */
  predicate WrongAttempt(h: Hash, a: Applet, c: Command, w: Which)
    requires Well(a)
  {
    var s := Get(a, w).slot;
    match c
    case Verify(p2, data, _) =>
      (if w.Pw3? then p2 == 0x83 else p2 == 0x81 || p2 == 0x82) && data != [] && Wrong(h, s, data)
    case Change(p2, data, _) =>
      if w.Pw3? then p2 == 0x83 && a.adminVerified && |data| == 16 && Wrong(h, s, data[..8])
      else (p2 == 0x81 || p2 == 0x82) && InWindow(POLICY, data) && Checked(s) && Resolved(h, s, data).1.NoSplit?
    case _ => false
  }

  /** A refill by the holder of the current PIN, or of PW1 by the verified administrator. */
  predicate Refill(h: Hash, a: Applet, c: Command, w: Which)
    requires Well(a)
  {
    var s := Get(a, w).slot;
    match c
    case Change(p2, data, _) =>
      if w.Pw3? then p2 == 0x83 && a.adminVerified && |data| == 16 && Checked(s) && Matches(h, s, data[..8])
      else (p2 == 0x81 || p2 == 0x82) && InWindow(POLICY, data) && Checked(s) && Resolved(h, s, data).1.Split?
    case ResetRetry(p1, p2, data, _) => w.Pw1? && p1 == 0x02 && p2 == 0x81 && a.adminVerified && |data| == 8
    case _ => false
  }

  function Spent(h: Hash, a: Applet, c: Command, w: Which, spent: nat): nat
    requires Well(a)
  {
    if Refill(h, a, c, w) then 0 else if WrongAttempt(h, a, c, w) then spent + 1 else spent
  }

  predicate Budget(a: Applet, one: nat, three: nat)
    ensures Budget(a, one, three) ==> Well(a)
  {
    GuardOk(a.pw1, POLICY, one) && GuardOk(a.pw3, POLICY, three)
  }

  predicate BudgetAfter(h: Hash, a: Applet, c: Command, one: nat, three: nat)
    requires Well(a)
  {
    Budget(Next(h, a, c).0, Spent(h, a, c, Pw1, one), Spent(h, a, c, Pw3, three))
  }

  lemma SelectKeepsBudget(h: Hash, a: Applet, c: Command, one: nat, three: nat)
    requires Budget(a, one, three) && c.Select?
    ensures BudgetAfter(h, a, c, one, three)
  {
    hide Encoded, Decoded;
  }

  lemma VerifyKeepsBudget(h: Hash, a: Applet, c: Command, one: nat, three: nat)
    requires Budget(a, one, three) && c.Verify?
    ensures BudgetAfter(h, a, c, one, three)
  {
    hide Verified, Anchored, IsRetry, Encoded, Resolved, Changed, ChangedPw1, Loaded, InWindow, Matches;
    var w := if c.p2 == 0x83 then Pw3 else Pw1;
    var s := Get(a, w).slot;
    VerifiedIs(h, s, c.data);
    if Wrong(h, s, c.data) {
      var b := WithSlot(a, w, s.(retries := s.retries - 1));
      AnchorKeeps(b.pw1, POLICY, if w.Pw1? then one + 1 else one, c.saved);
      AnchorKeeps(b.pw3, POLICY, if w.Pw3? then three + 1 else three, c.saved);
    }
  }

  lemma ChangeKeepsBudget(h: Hash, a: Applet, c: Command, one: nat, three: nat)
    requires Budget(a, one, three) && c.Change?
    ensures BudgetAfter(h, a, c, one, three)
  {
    hide Encoded, Decoded, Resolved, FirstMatch, ChangedPw1, Loaded, Anchored;
    if (c.p2 == 0x81 || c.p2 == 0x82) && InWindow(POLICY, c.data) {
      ChangePw1Effect(h, a.pw1.slot, c.data);
      var s := ChangedPw1(h, a.pw1.slot, c.data).0;
      AnchorKeeps(a.pw1.(slot := s), POLICY, Spent(h, a, c, Pw1, one), c.saved);
      AnchorKeeps(a.pw3, POLICY, three, c.saved);
    } else if c.p2 == 0x83 && a.adminVerified && |c.data| == 16 {
      var s := Changed(h, a.pw3.slot, c.data[..8], c.data[8..]).0;
      AnchorKeeps(a.pw1, POLICY, one, c.saved);
      AnchorKeeps(a.pw3.(slot := s), POLICY, Spent(h, a, c, Pw3, three), c.saved);
    }
  }

  /** What a user change does to the slot. */
  lemma ChangePw1Effect(h: Hash, s: Slot, body: seq<Byte>)
    requires InWindow(s.policy, body)
    ensures var (s', sw) := ChangedPw1(h, s, body);
      if !Checked(s) then s' == s && (sw == CONDITIONS || sw == BLOCKED)
      else if Resolved(h, s, body).1.Split? then
        s'.retries == s.policy.maxAttempts && s'.hash.Some? && s'.policy == s.policy && sw == OK
      else Resolved(h, s, body).1.NoSplit? && s' == s.(retries := s.retries - 1) && IsRetry(sw)
  {
    if Checked(s) {
      ResolveThenChange(h, s, body);
    }
  }

  lemma AdminKeepsBudget(h: Hash, a: Applet, c: Command, one: nat, three: nat)
    requires Budget(a, one, three) && (c.ResetRetry? || c.PutData?)
    ensures BudgetAfter(h, a, c, one, three)
  {
    hide Encoded, Decoded;
  }

  /** Whatever the store answers, spent attempts plus counter, and plus floor, stay within the budget. */
  lemma NextKeepsBudget(h: Hash, a: Applet, c: Command, one: nat, three: nat)
    requires Budget(a, one, three)
    ensures BudgetAfter(h, a, c, one, three)
  {
    hide BudgetAfter, Budget;
    match c {
      case Select(_) => SelectKeepsBudget(h, a, c, one, three);
      case Verify(_, _, _) => VerifyKeepsBudget(h, a, c, one, three);
      case Change(_, _, _) => ChangeKeepsBudget(h, a, c, one, three);
      case _ => AdminKeepsBudget(h, a, c, one, three);
    }
  }

  /** The applet and the audit after a run; the audit is (PW1, PW3). */
  function Run(h: Hash, a: Applet, cs: seq<Command>, one: nat, three: nat): (r: (Applet, nat, nat))
    requires Budget(a, one, three)
    ensures Budget(r.0, r.1, r.2)
    decreases |cs|
  {
    if cs == [] then (a, one, three)
    else
      NextKeepsBudget(h, a, cs[0], one, three);
      Run(h, Next(h, a, cs[0]).0, cs[1..], Spent(h, a, cs[0], Pw1, one), Spent(h, a, cs[0], Pw3, three))
  }

  /** At most three wrong presentations per slot between two authorised refills, in any session. */
  lemma SessionBudget(h: Hash, cs: seq<Command>)
    ensures Run(h, Boot(), cs, 0, 0).1 <= 3 && Run(h, Boot(), cs, 0, 0).2 <= 3
  {
    var r := Run(h, Boot(), cs, 0, 0);
    assert Budget(r.0, r.1, r.2);
  }

  // ----- what a refill installs ----------------------------------------------------------------------

  /**
   The value a refill installs: the new half of a PW1 change, the last eight octets of a
   PW3 change, the body of a reset.
   */
  function NewValue(h: Hash, a: Applet, c: Command, w: Which): seq<Byte>
    requires Well(a)
  {
    match c
    case Change(p2, data, _) =>
      if w.Pw3? then if |data| == 16 then data[8..] else []
      else if InWindow(POLICY, data) && Resolved(h, a.pw1.slot, data).1.Split? then
        var k := Resolved(h, a.pw1.slot, data).1.at;
        if k <= |data| then data[k..] else []
      else []
    case ResetRetry(_, _, data, _) => data
    case _ => []
  }

  lemma RefillInstalls(h: Hash, a: Applet, c: Command, w: Which)
    requires Budget(a, 0, 0) && Refill(h, a, c, w)
    ensures var b := Next(h, a, c).0;
            && Get(b, w).slot == Slot(POLICY, Some(h(NewValue(h, a, c, w))), 3)
            && (if w.Pw1? then b.pw3.slot == a.pw3.slot else b.pw1.slot == a.pw1.slot)
  {
    hide Encoded, Decoded, FirstMatch, Anchored;
    AnchoredSlot();
    if c.Change? && w.Pw1? {
      ResolveThenChange(h, a.pw1.slot, c.data);
      hide Resolved;
    }
  }

  /** Saving moves floors, not slots. */
  lemma AnchoredSlot()
    ensures forall g: Guard, saved :: Anchored(g, saved).slot == g.slot
  {
  }

  /**
   A PW1 change by the holder: with an injective hash, the part after the current PIN is the
   new one; the eight octets after the first eight for PW3; the whole body of a reset.
   */
  lemma NewValueIs(h: Hash, a: Applet, c: Command, w: Which, pin: seq<Byte>)
    requires Budget(a, 0, 0) && Refill(h, a, c, w) && Injective(h)
    requires w.Pw1? && c.Change? ==> a.pw1.slot.hash == Some(h(pin)) && LengthOk(POLICY, pin)
    ensures w.Pw1? && c.Change? ==> pin <= c.data && NewValue(h, a, c, w) == c.data[|pin|..]
    ensures w.Pw3? ==> |c.data| == 16 && NewValue(h, a, c, w) == c.data[8..]
    ensures c.ResetRetry? ==> |c.data| == 8 && NewValue(h, a, c, w) == c.data
  {
    if w.Pw1? && c.Change? {
      ResolveFindsPin(h, a.pw1.slot, pin, c.data);
      hide Resolved;
    }
  }

  /** Which VERIFY reference presents a slot: 81 and 82 for PW1, 83 for PW3. */
  predicate RefersTo(p2: nat, w: Which) { if w.Pw1? then p2 == 0x81 || p2 == 0x82 else p2 == 0x83 }

  /** Right after a refill the new value verifies, and with an injective hash nothing else does. */
  lemma RefilledPwVerifies(h: Hash, a: Applet, c: Command, w: Which, p2: nat, pin: seq<Byte>, saved: bool)
    requires Budget(a, 0, 0) && Refill(h, a, c, w) && RefersTo(p2, w) && pin != []
    ensures Well(Next(h, a, c).0)
    ensures pin == NewValue(h, a, c, w) ==> Next(h, Next(h, a, c).0, Verify(p2, pin, saved)).1 == OK
    ensures Injective(h) && pin != NewValue(h, a, c, w) ==>
      Next(h, Next(h, a, c).0, Verify(p2, pin, saved)).1 == if saved then RetriesLeft(2) else NOT_ENOUGH_MEMORY
  {
    RefillInstalls(h, a, c, w);
    NextKeepsBudget(h, a, c, 0, 0);
    var b := Next(h, a, c).0;
    hide Refill, NewValue, Changed, ChangedPw1, Installed, Loaded, Anchored;
    PresentedIs(h, b, w, p2, pin, saved);
  }

  lemma PresentedIs(h: Hash, b: Applet, w: Which, p2: nat, pin: seq<Byte>, saved: bool)
    requires Well(b) && RefersTo(p2, w) && pin != []
    requires Get(b, w).slot.hash.Some? && Get(b, w).slot.retries == 3
    ensures Next(h, b, Verify(p2, pin, saved)).1 ==
      if h(pin) == Get(b, w).slot.hash.value then OK else if saved then RetriesLeft(2) else NOT_ENOUGH_MEMORY
  {
    hide Changed, ChangedPw1, Installed, Loaded, Anchored;
  }

  /** A state that does not read falls back to `123456` and `12345678`, never with more attempts than the floor. */
  lemma FallbackIsDefault(h: Hash, a: Applet, c: Command)
    requires Well(a) && c.Select? && c.read.None?
    ensures var b := Next(h, a, c).0;
            && b.pw1.slot.hash == Some(h([0x31, 0x32, 0x33, 0x34, 0x35, 0x36]))
            && b.pw3.slot.hash == Some(h([0x31, 0x32, 0x33, 0x34, 0x35, 0x36, 0x37, 0x38]))
            && b.pw1.slot.retries == (if a.pw1.floor < 3 then a.pw1.floor else 3)
            && b.pw3.slot.retries == (if a.pw3.floor < 3 then a.pw3.floor else 3)
  {
  }

  /** Each session flag comes on only by the right password, presented for it. */
  lemma FlagsNeedRightPw(h: Hash, a: Applet, c: Command)
    requires Well(a)
    ensures var b := Next(h, a, c).0;
            && (b.signVerified ==> a.signVerified || Right(h, a, c, 0x81, Pw1))
            && (b.otherVerified ==> a.otherVerified || Right(h, a, c, 0x82, Pw1))
            && (b.adminVerified ==> a.adminVerified || Right(h, a, c, 0x83, Pw3))
            && (c.Select? ==> !b.signVerified && !b.otherVerified && !b.adminVerified)
            && (Right(h, a, c, 0x81, Pw1) ==> b.signVerified) && (Right(h, a, c, 0x82, Pw1) ==> b.otherVerified)
            && (Right(h, a, c, 0x83, Pw3) ==> b.adminVerified)
  {
    hide Changed, ChangedPw1, Installed, Anchored, Encoded, Decoded;
  }

  /** VERIFY of one reference with the stored value, while attempts are left. */
  predicate Right(h: Hash, a: Applet, c: Command, p2: nat, w: Which)
  {
    c.Verify? && c.p2 == p2 && c.data != [] && Checked(Get(a, w).slot) && Get(a, w).slot.hash == Some(h(c.data))
  }

  // ----- agreement with the store -------------------------------------------------------------------

  /** A command that reaches the store, whose answer then depends on the save. */
  predicate Saves(h: Hash, a: Applet, c: Command)
    requires Well(a)
  {
    match c
    case Select(_) => false
    case Verify(_, _, _) => WrongAttempt(h, a, c, Pw1) || WrongAttempt(h, a, c, Pw3)
    case Change(p2, data, _) =>
      if p2 == 0x83 then a.adminVerified && |data| == 16
      else (p2 == 0x81 || p2 == 0x82) && InWindow(POLICY, data)
    case ResetRetry(p1, p2, data, _) => p1 == 0x02 && p2 == 0x81 && a.adminVerified && |data| == 8
    case PutData(accepted, _) => a.adminVerified && accepted
  }

  predicate Accepted(c: Command) { !c.Select? && c.saved }

  function Image(a: Applet): StateRead
    requires Well(a)
  {
    StateRead(Encoded(a.pw1.slot), Encoded(a.pw3.slot), true)
  }

  /** What a command leaves behind, by whether it saved and whether the store took it. */
  predicate Settled(h: Hash, a: Applet, c: Command)
    requires Well(a)
  {
    var (a', sw) := Next(h, a, c);
    && Well(a')
    && (!Saves(h, a, c) ==> a'.pw1 == a.pw1 && a'.pw3 == a.pw3)
    && (Saves(h, a, c) && !Accepted(c) ==> sw == NOT_ENOUGH_MEMORY)
    && (Saves(h, a, c) && Accepted(c) ==>
          && sw != NOT_ENOUGH_MEMORY
          && a'.pw1.floor == a'.pw1.slot.retries && a'.pw3.floor == a'.pw3.slot.retries)
  }

  lemma VerifySettles(h: Hash, a: Applet, c: Command)
    requires Budget(a, 0, 0) && c.Verify?
    ensures Settled(h, a, c)
  {
    hide Encoded, Decoded, Resolved, FirstMatch, Changed, ChangedPw1, Installed, Loaded, InWindow;
  }

  lemma ChangeSettles(h: Hash, a: Applet, c: Command)
    requires Budget(a, 0, 0) && c.Change?
    ensures Settled(h, a, c)
  {
    hide Encoded, Decoded, Resolved, FirstMatch, ChangedPw1;
    if (c.p2 == 0x81 || c.p2 == 0x82) && InWindow(POLICY, c.data) {
      ChangePw1Effect(h, a.pw1.slot, c.data);
    }
  }

  lemma AdminSettles(h: Hash, a: Applet, c: Command)
    requires Budget(a, 0, 0) && (c.ResetRetry? || c.PutData?)
    ensures Settled(h, a, c)
  {
    hide Encoded, Decoded, Resolved;
  }

  lemma LoadedImage(h: Hash, a: Applet)
    requires Well(a) && a.pw1.floor == a.pw1.slot.retries && a.pw3.floor == a.pw3.slot.retries
    ensures Loaded(h, a, Some(Image(a))) == a
  {
    hide Encoded, Decoded;
    DecodeInvertsEncode(a.pw1.slot);
    DecodeInvertsEncode(a.pw3.slot);
  }

  /**
   After an accepted save both slots, the stored image and both floors agree, so a
   re-select restores exactly both slots; a refused save is always answered `6A84`; a
   command that reaches no save changes neither slot nor floor.
   */
  lemma SavesAreSettled(h: Hash, a: Applet, c: Command)
    requires Budget(a, 0, 0) && !c.Select?
    ensures var (a', sw) := Next(h, a, c);
      && Well(a')
      && (!Saves(h, a, c) ==> a'.pw1 == a.pw1 && a'.pw3 == a.pw3)
      && (Saves(h, a, c) && !Accepted(c) ==> sw == NOT_ENOUGH_MEMORY)
      && (Saves(h, a, c) && Accepted(c) ==>
            && sw != NOT_ENOUGH_MEMORY
            && a'.pw1.floor == a'.pw1.slot.retries && a'.pw3.floor == a'.pw3.slot.retries
            && Loaded(h, a', Some(Image(a'))) == a')
  {
    hide Next, Saves, Well, Budget, Loaded, Image;
    match c {
      case Verify(_, _, _) => VerifySettles(h, a, c);
      case Change(_, _, _) => ChangeSettles(h, a, c);
      case _ => AdminSettles(h, a, c);
    }
    var a' := Next(h, a, c).0;
    if Saves(h, a, c) && Accepted(c) { LoadedImage(h, a'); }
  }

  // ----- the applet's fields and handlers --------------------------------------------------------

  class OpenPgp {
    var pw1: Slot
    var pw3: Slot
    var pw1Floor: nat
    var pw3Floor: nat
    var signVerified: bool
    var otherVerified: bool
    var adminVerified: bool

    function View(): Applet
      reads this
    {
      Applet(Guard(pw1, pw1Floor), Guard(pw3, pw3Floor), signVerified, otherVerified, adminVerified)
    }

    constructor ()
      ensures View() == Boot()
    {
      pw1, pw3 := NewSlot(POLICY), NewSlot(POLICY);
      pw1Floor, pw3Floor := POLICY.maxAttempts, POLICY.maxAttempts;
      signVerified, otherVerified, adminVerified := false, false, false;
    }

    method PersistState(saved: bool)
      modifies this
      ensures View() == Persisted(old(View()), saved)
    {
      if saved {
        pw1Floor, pw3Floor := pw1.retries, pw3.retries;
      } else {
        if pw1.retries < pw1Floor { pw1Floor := pw1.retries; }
        if pw3.retries < pw3Floor { pw3Floor := pw3.retries; }
      }
    }

    method FinishChange(result: Sw, saved: bool) returns (sw: Sw)
      modifies this
      ensures (View(), sw) == Settle(old(View()), result, saved)
    {
      PersistState(saved);
      sw := if saved then result else NOT_ENOUGH_MEMORY;
    }

    /** A selection: reload, or fall back to the defaults, then drop the session flags. */
    method SelectApplet(h: Hash, read: Option<StateRead>)
      requires Well(View())
      modifies this
      ensures (View(), OK) == Next(h, old(View()), Select(read))
    {
      var decoded := false;
      if read.Some? {
        var one, three := Decoded(POLICY, read.value.pw1), Decoded(POLICY, read.value.pw3);
        if one.Some? && three.Some? && read.value.restOk {
          pw1, pw3 := Clamped(one.value, pw1Floor), Clamped(three.value, pw3Floor);
          decoded := true;
        }
      }
      if !decoded {
        pw1, pw3 := Installed(h, pw1, DEFAULT_PW1).0, Installed(h, pw3, DEFAULT_PW3).0;
        pw1, pw3 := Clamped(pw1, pw1Floor), Clamped(pw3, pw3Floor);
      }
      signVerified, otherVerified, adminVerified := false, false, false;
    }

    method VerifyPw(h: Hash, p2: nat, data: seq<Byte>, saved: bool) returns (sw: Sw)
      requires Well(View())
      modifies this
      ensures (View(), sw) == Next(h, old(View()), Verify(p2, data, saved))
    {
      if p2 < 0x81 || p2 > 0x83 { return INCORRECT_PARAMETERS; }
      var slot := if p2 == 0x83 then pw3 else pw1;
      if data == [] {
        return if slot.hash.Some? && slot.retries == 0 then BLOCKED else RetriesLeft(slot.retries);
      }
      var (s, result) := Verified(h, slot, data);
      if p2 == 0x83 { pw3 := s; } else { pw1 := s; }
      if result == OK {
        if p2 == 0x81 { signVerified := true; }
        if p2 == 0x82 { otherVerified := true; }
        if p2 == 0x83 { adminVerified := true; }
        return OK;
      }
      if !IsRetry(result) { return result; }
      sw := FinishChange(result, saved);
    }

    method VerifyChange(h: Hash, p2: nat, data: seq<Byte>, saved: bool) returns (sw: Sw)
      requires Well(View())
      modifies this
      ensures (View(), sw) == Next(h, old(View()), Change(p2, data, saved))
    {
      if p2 < 0x81 || p2 > 0x83 { return INCORRECT_PARAMETERS; }
      if p2 == 0x83 {
        if !adminVerified { return SECURITY_STATUS; }
        if |data| != 16 { return WRONG_DATA; }
        var (s, result) := Changed(h, pw3, data[..8], data[8..]);
        pw3 := s;
        sw := FinishChange(result, saved);
        return;
      }
      if |data| < 2 * POLICY.minLen || |data| > 2 * POLICY.maxLen { return WRONG_DATA; }
      var (s, result) := ChangedPw1(h, pw1, data);
      pw1 := s;
      sw := FinishChange(result, saved);
    }

    method ResetRetryCounter(h: Hash, p1: nat, p2: nat, data: seq<Byte>, saved: bool) returns (sw: Sw)
      requires Well(View())
      modifies this
      ensures (View(), sw) == Next(h, old(View()), ResetRetry(p1, p2, data, saved))
    {
      if p1 != 0x02 || p2 != 0x81 {
        return if p1 == 0x00 then FUNCTION_NOT_SUPPORTED else INCORRECT_PARAMETERS;
      }
      if !adminVerified { return SECURITY_STATUS; }
      if |data| != 8 { return WRONG_DATA; }
      var (s, result) := Installed(h, pw1, data);
      pw1 := s;
      sw := FinishChange(result, saved);
    }
  }
}
