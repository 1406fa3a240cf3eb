/**
 The shared PIN slot: a hash, a retry counter and their fixed-size encoding. The hash
 function is uninterpreted.
 */
module Pin {
  import opened Wrappers
  import opened Bytes
  import opened StatusWords

  const HASH_LEN := 32
  const STATE_LEN := 36
  const VERSION: Byte := 1
  const FORMAT: Byte := 1

  type Digest = d: seq<Byte> | |d| == HASH_LEN witness seq(32, i => 0)
  type Hash = seq<Byte> -> Digest

  datatype Policy = Policy(minLen: nat, maxLen: nat, maxAttempts: nat)

  datatype Slot = Slot(policy: Policy, hash: Option<Digest>, retries: nat)

  /** The counter never exceeds the attempts the policy grants. */
  predicate SlotOk(s: Slot) { s.retries <= s.policy.maxAttempts < 16 }

  function NewSlot(p: Policy): Slot { Slot(p, None, p.maxAttempts) }

  predicate LengthOk(p: Policy, pin: seq<Byte>) { p.minLen <= |pin| <= p.maxLen }

  /** A presentation that reaches the hash comparison. */
  predicate Checked(s: Slot) { s.hash.Some? && s.retries > 0 }

  predicate Matches(h: Hash, s: Slot, pin: seq<Byte>) { s.hash == Some(h(pin)) }

  /** A presentation that is compared and found wrong. */
  predicate Wrong(h: Hash, s: Slot, pin: seq<Byte>) { Checked(s) && !Matches(h, s, pin) }

  // ----- the operations, as functions of the slot -----------------------------------------

  /** The slot and the status of a verification (`OK` on success). */
  function Verified(h: Hash, s: Slot, pin: seq<Byte>): (Slot, Sw)
  {
    if s.hash.None? then (s, CONDITIONS)
    else if s.retries == 0 then (s, BLOCKED)
    else if Matches(h, s, pin) then (s, OK)
    else (s.(retries := s.retries - 1), RetriesLeft(s.retries - 1))
  }

  function Installed(h: Hash, s: Slot, pin: seq<Byte>): (Slot, Sw)
  {
    if !LengthOk(s.policy, pin) then (s, WRONG_LENGTH)
    else (s.(hash := Some(h(pin)), retries := s.policy.maxAttempts), OK)
  }

  function Changed(h: Hash, s: Slot, current: seq<Byte>, new_: seq<Byte>): (Slot, Sw)
  {
    var (s', sw) := Verified(h, s, current);
    if sw != OK then (s', sw) else Installed(h, s', new_)
  }

  /** The first split of `low ..= high` whose prefix is the stored PIN. */
  function FirstMatch(h: Hash, s: Slot, body: seq<Byte>, low: nat, high: int): (k: Option<nat>)
    requires high <= |body|
    ensures k.Some? ==> low <= k.value <= high && Matches(h, s, body[..k.value])
    ensures k.None? ==> forall i: nat :: low <= i <= high ==> !Matches(h, s, body[..i])
    decreases high - low
  {
    if low > high then None
    else if Matches(h, s, body[..low]) then Some(low)
    else FirstMatch(h, s, body, low + 1, high)
  }

  predicate InWindow(p: Policy, body: seq<Byte>) { 2 * p.minLen <= |body| <= 2 * p.maxLen }

  function Low(p: Policy, len: nat): nat { if len >= p.maxLen + p.minLen then len - p.maxLen else p.minLen }
  function High(p: Policy, len: nat): int { if len <= p.maxLen + p.minLen then len - p.minLen else p.maxLen }

  datatype Resolution = Split(at: nat) | NoSplit | Refused(sw: Sw)

  /** Find the current half of a `current || new` body; a miss costs one attempt. */
  function Resolved(h: Hash, s: Slot, body: seq<Byte>): (Slot, Resolution)
    requires InWindow(s.policy, body)
  {
    if s.hash.None? then (s, Refused(CONDITIONS))
    else if s.retries == 0 then (s, Refused(BLOCKED))
    else
      match FirstMatch(h, s, body, Low(s.policy, |body|), High(s.policy, |body|))
      case Some(k) => (s, Split(k))
      case None => (s.(retries := s.retries - 1), NoSplit)
  }

  // ----- what they promise -----------------------------------------------------------------

  /**
   A resolved split puts both halves inside the length policy, and the change that
   follows always succeeds; otherwise no admissible split matches and exactly one
   attempt is gone.
   */
  lemma ResolveThenChange(h: Hash, s: Slot, body: seq<Byte>)
    requires InWindow(s.policy, body) && Checked(s)
    ensures var (s', r) := Resolved(h, s, body);
      && (r.Split? ==>
            && s' == s && r.at <= |body|
            && LengthOk(s.policy, body[..r.at]) && LengthOk(s.policy, body[r.at..])
            && Changed(h, s, body[..r.at], body[r.at..])
               == (s.(hash := Some(h(body[r.at..])), retries := s.policy.maxAttempts), OK))
      && (r.NoSplit? ==>
            && s' == s.(retries := s.retries - 1)
            && forall k: nat :: k <= |body| && LengthOk(s.policy, body[..k]) && LengthOk(s.policy, body[k..])
                 ==> !Matches(h, s, body[..k]))
      && !r.Refused?
  {
  }

  /** Distinct PINs have distinct hashes. */
  ghost predicate Injective(h: Hash)
  {
    forall a, b :: h(a) == h(b) ==> a == b
  }

  /** With an injective hash the split is the one whose prefix is the current PIN. */
  lemma ResolveFindsPin(h: Hash, s: Slot, pin: seq<Byte>, body: seq<Byte>)
    requires Injective(h) && InWindow(s.policy, body) && Checked(s)
    requires s.hash == Some(h(pin)) && LengthOk(s.policy, pin)
    ensures
      Resolved(h, s, body).1 ==
        if pin <= body && LengthOk(s.policy, body[|pin|..]) then Split(|pin|) else NoSplit
  {
    var p, n := s.policy, |body|;
    var found := FirstMatch(h, s, body, Low(p, n), High(p, n));
    if found.Some? {
      assert body[..found.value] == pin;
    } else if pin <= body && LengthOk(p, body[|pin|..]) {
      assert body[..|pin|] == pin;
      assert Matches(h, s, body[..|pin|]);
      assert false;
    }
  }

  // ----- persistence ----------------------------------------------------------------------

  function Encoded(s: Slot): (e: seq<Byte>)
    requires SlotOk(s)
    ensures |e| == 36 && e[0] == 1 && e[1] == 1 && e[2] == s.retries
    ensures if s.hash.Some? then e[3] == 1 && e[4..] == s.hash.value else e[3..] == Zeros(33)
  {
    match s.hash
    case Some(d) => [VERSION, FORMAT, s.retries, 1] + d
    case None => [VERSION, FORMAT, s.retries, 0] + Zeros(HASH_LEN)
  }

  function Decoded(p: Policy, buf: seq<Byte>): (s: Option<Slot>)
    ensures s.Some? ==> s.value.policy == p && s.value.retries <= p.maxAttempts
  {
    if |buf| != STATE_LEN || buf[0] != VERSION || buf[1] != FORMAT || buf[2] > p.maxAttempts then None
    else Some(Slot(p, if buf[3] % 2 == 1 then Some(buf[4..]) else None, buf[2]))
  }

  lemma DecodeInvertsEncode(s: Slot)
    requires SlotOk(s)
    ensures Decoded(s.policy, Encoded(s)) == Some(s)
  {
    if s.hash.Some? {
      assert Encoded(s)[4..] == s.hash.value;
    }
  }

  /** Lower a counter to the session floor, through the encoding as the applets do it. */
  function Clamped(s: Slot, floor: nat): (c: Slot)
    requires SlotOk(s)
    ensures floor <= s.policy.maxAttempts ==> c == s.(retries := if s.retries <= floor then s.retries else floor)
    ensures SlotOk(c) && c.policy == s.policy
  {
    if s.retries <= floor then s
    else
      var e := Encoded(s)[2 := floor];
      assert s.hash.Some? ==> e[4..] == s.hash.value;
      match Decoded(s.policy, e)
      case Some(c) => c
      case None => s
  }

  // ----- session floors --------------------------------------------------------------------

  /** A slot with its sticky session floor: the lowest counter known to be saved or spent. */
  datatype Guard = Guard(slot: Slot, floor: nat)

  /** After a save: an accepted one anchors the floor to the counter, a refused one can only lower it. */
  function Anchored(g: Guard, saved: bool): Guard
  {
    if saved || g.slot.retries < g.floor then g.(floor := g.slot.retries) else g
  }

  /** The attempts spent since the last refill leave room for the counter and for the floor. */
  predicate GuardOk(g: Guard, p: Policy, spent: nat)
  {
    && g.slot.policy == p && SlotOk(g.slot)
    && spent + g.slot.retries <= p.maxAttempts
    && spent + g.floor <= p.maxAttempts
  }

  /** Any save leaves a floor that the counter's budget covers. */
  lemma AnchorKeeps(g: Guard, p: Policy, spent: nat, saved: bool)
    requires g.slot.policy == p && SlotOk(g.slot) && spent + g.slot.retries <= p.maxAttempts
    ensures GuardOk(Anchored(g, saved), p, spent)
  {
  }

  /** What one presentation does: a wrong one costs an attempt and says so, nothing else does. */
  lemma VerifiedIs(h: Hash, s: Slot, pin: seq<Byte>)
    requires SlotOk(s)
    ensures var (s', sw) := Verified(h, s, pin);
            if Wrong(h, s, pin) then s' == s.(retries := s.retries - 1) && IsRetry(sw) && sw != OK
            else s' == s && !IsRetry(sw)
  {
  }

  /** The slot as the applets hold it, updated in place. */
  class PinSlot {
    const policy: Policy
    var hash: Option<Digest>
    var retries: nat

    function View(): Slot
      reads this
    {
      Slot(policy, hash, retries)
    }

    constructor (policy: Policy)
      ensures View() == NewSlot(policy)
    {
      this.policy := policy;
      hash, retries := None, policy.maxAttempts;
    }

    method Verify(h: Hash, pin: seq<Byte>) returns (sw: Sw)
      modifies this
      ensures (View(), sw) == Verified(h, old(View()), pin)
    {
      if hash.None? {
        return CONDITIONS;
      }
      if retries == 0 {
        return BLOCKED;
      }
      if hash.value == h(pin) {
        return OK;
      }
      retries := retries - 1;
      return RetriesLeft(retries);
    }

    method Set(h: Hash, pin: seq<Byte>) returns (sw: Sw)
      modifies this
      ensures (View(), sw) == Installed(h, old(View()), pin)
    {
      if |pin| < policy.minLen || |pin| > policy.maxLen {
        return WRONG_LENGTH;
      }
      hash := Some(h(pin));
      retries := policy.maxAttempts;
      return OK;
    }

    method Change(h: Hash, current: seq<Byte>, new_: seq<Byte>) returns (sw: Sw)
      modifies this
      ensures (View(), sw) == Changed(h, old(View()), current, new_)
    {
      sw := Verify(h, current);
      if sw == OK {
        sw := Set(h, new_);
      }
    }

    /** The whole window is hashed once; the first match is kept. */
    method ResolveChange(h: Hash, body: seq<Byte>) returns (r: Resolution)
      requires InWindow(policy, body)
      modifies this
      ensures (View(), r) == Resolved(h, old(View()), body)
    {
      if hash.None? {
        return Refused(CONDITIONS);
      }
      if retries == 0 {
        return Refused(BLOCKED);
      }
      var low, high := Low(policy, |body|), High(policy, |body|);
      var matched: Option<nat> := None;
      var split := low;
      while split <= high
        invariant low <= split
        invariant View() == old(View())
        invariant FirstMatch(h, View(), body, low, high)
          == if matched.Some? then matched else FirstMatch(h, View(), body, split, high)
        decreases high - split
      {
        if hash.value == h(body[..split]) && matched.None? {
          matched := Some(split);
        }
        split := split + 1;
      }
      if matched.Some? {
        return Split(matched.value);
      }
      retries := retries - 1;
      return NoSplit;
    }
  }
}
