/**
 The sharded sealed blob: `n` data cells and a commit cell, every save under one
 fresh generation with the commit written last.

 Sealing is ideal: a record opens under the device key to the generation and body
 that were sealed with its nonce, or does not open at all. The stores of a save may
 fail at any point, which is how both power cuts and flash errors appear.
 */
module SealedBlob {
  import opened Wrappers
  import opened Bytes
  import opened SlotStore

  const SHARD_BODY_MAX: nat := 2268
  const COMMIT_LEN := 4

  /** The 12-octet nonce: generation, applet tag, shard number. */
  function Nonce(generation: nat, applet: nat, shard: nat): (s: seq<Byte>)
    ensures |s| == 12
  {
    ToLE(generation, 8) + ToLE(applet, 2) + ToLE(shard, 2)
  }

  /** Eight octets of generation, two of applet and two of shard, little endian. */
  lemma NonceParts(g: nat, a: nat, s: nat)
    requires g < U64 && a < U16 && s < U16
    ensures var x := Nonce(g, a, s);
            FromLE(x[..8]) == g && FromLE(x[8..10]) == a && FromLE(x[10..]) == s
  {
    PowerTable();
    var x := Nonce(g, a, s);
    assert x[..8] == ToLE(g, 8) && x[8..10] == ToLE(a, 2) && x[10..] == ToLE(s, 2);
    LERoundTrip(g, 8);
    LERoundTrip(a, 2);
    LERoundTrip(s, 2);
  }

  /** The nonce determines generation, applet and shard. */
  lemma NonceInjective(g: nat, a: nat, s: nat, g': nat, a': nat, s': nat)
    requires g < U64 && g' < U64 && a < U16 && a' < U16 && s < U16 && s' < U16
    requires Nonce(g, a, s) == Nonce(g', a', s')
    ensures g == g' && a == a' && s == s'
  {
    NonceParts(g, a, s);
    NonceParts(g', a', s');
  }

  /** A stored record: sealed by this device, or bytes that do not authenticate. */
  datatype Payload = Sealed(nonce: seq<Byte>, generation: nat, body: seq<Byte>) | Foreign

  datatype Opened = Absent | Bad | Good(generation: nat, body: seq<Byte>)

  /** Open one slot, checking that the nonce belongs to this applet and shard. */
  function OpenShard(applet: nat, shard: nat, slot: Slot<Payload>): Opened
  {
    match slot
    case Unreadable => Absent
    case Record(_, Foreign) => Bad
    case Record(_, Sealed(nonce, generation, body)) =>
      if nonce == Nonce(generation, applet, shard) then Good(generation, body) else Bad
  }

  function Seal(applet: nat, shard: nat, generation: nat, body: seq<Byte>): Payload
  {
    Sealed(Nonce(generation, applet, shard), generation, body)
  }

  datatype Store = Store(applet: nat, data: seq<Cell<Payload>>, commit: Cell<Payload>)

  // ----- the fresh generation -------------------------------------------------------

  /** The generation a slot shows (zero when unreadable), or `None` when it does not open. */
  function SlotGen(applet: nat, shard: nat, commit: bool, slot: Slot<Payload>): Option<nat>
  {
    match OpenShard(applet, shard, slot)
    case Absent => Some(0)
    case Bad => None
    case Good(g, body) => if commit && |body| != COMMIT_LEN then None else Some(g)
  }

  function Larger(a: Option<nat>, b: Option<nat>): Option<nat>
  {
    if a.None? || b.None? then None else if a.value < b.value then b else a
  }

  function CellGen(applet: nat, shard: nat, commit: bool, c: Cell<Payload>): Option<nat>
  {
    Larger(SlotGen(applet, shard, commit, c.s0), SlotGen(applet, shard, commit, c.s1))
  }

  /** The largest generation in the first `k` data cells. */
  function DataGen(s: Store, k: nat): Option<nat>
    requires k <= |s.data|
  {
    if k == 0 then Some(0)
    else Larger(DataGen(s, k - 1), CellGen(s.applet, k - 1, false, s.data[k - 1]))
  }

  /** One above everything observed, wrapping at 64 bits; `None` when a slot does not open. */
  function FreshGen(s: Store): Option<nat>
  {
    var seen := Larger(DataGen(s, |s.data|), CellGen(s.applet, |s.data|, true, s.commit));
    if seen.None? then None else Some((seen.value + 1) % U64)
  }

  // ----- saving -----------------------------------------------------------------------

  /** The part of the blob shard `i` carries. */
  function Chunk(blob: seq<Byte>, i: nat): (c: seq<Byte>)
    ensures |c| <= SHARD_BODY_MAX
  {
    var start := i * SHARD_BODY_MAX;
    if start >= |blob| then []
    else if start + SHARD_BODY_MAX <= |blob| then blob[start..start + SHARD_BODY_MAX]
    else blob[start..]
  }

  /**
   Where a save stops: `Clean` runs to the end; `Stop(k, how)` completes the first `k`
   stores, the next one gets only as far as `how`, and nothing follows it.
   */
  datatype Fault = Clean | Stop(k: nat, how: Outcome)

  /** How store number `i` of a save ends under a fault, given that it was reached. */
  function Ends(f: Fault, i: nat): Outcome
  {
    if f.Stop? && i == f.k then f.how else Completed
  }

  predicate Reached(f: Fault, i: nat)
  {
    f.Clean? || i <= f.k
  }

  /** A fault that interrupts the save before its commit record is complete. */
  predicate Interrupts(f: Fault, n: nat)
  {
    !Reached(f, n) || !Ends(f, n).Completed?
  }

  /** The store after the first `i` shard stores of a save. */
  function SavedShards(s: Store, blob: seq<Byte>, g: nat, f: Fault, i: nat): (s': Store)
    requires i <= |s.data|
    ensures |s'.data| == |s.data| && s'.applet == s.applet && s'.commit == s.commit
    ensures forall j :: i <= j < |s.data| ==> s'.data[j] == s.data[j]
  {
    if i == 0 then s
    else
      var t := SavedShards(s, blob, g, f, i - 1);
      if Reached(f, i - 1) then
        var payload := Seal(s.applet, i - 1, g, Chunk(blob, i - 1));
        t.(data := t.data[i - 1 := Stored(t.data[i - 1], payload, Ends(f, i - 1))])
      else t
  }

  function CommitRecord(s: Store, blob: seq<Byte>, g: nat): Payload
  {
    Seal(s.applet, |s.data|, g, ToLE(|blob|, COMMIT_LEN))
  }

  /** The store after a save under fault `f`; unchanged when the save is refused. */
  function Saved(s: Store, blob: seq<Byte>, f: Fault): Store
  {
    var g := FreshGen(s);
    if |blob| > |s.data| * SHARD_BODY_MAX || g.None? then s
    else
      var n := |s.data|;
      var t := SavedShards(s, blob, g.value, f, n);
      if Reached(f, n) then t.(commit := Stored(s.commit, CommitRecord(s, blob, g.value), Ends(f, n))) else t
  }

  // ----- loading -------------------------------------------------------------------------

  /** A search through slots: an unopenable slot on the way, nothing, or the value. */
  datatype Search<T> = Broken | Missing | Found(value: T)

  /** The commit record of a generation in slot order: its total length. */
  function CommitTotal(s: Store, g: nat): Search<nat>
  {
    var a, b := OpenShard(s.applet, |s.data|, s.commit.s0), OpenShard(s.applet, |s.data|, s.commit.s1);
    if a.Bad? then Broken
    else if a.Good? && a.generation == g && |a.body| == COMMIT_LEN then Found(FromLE(a.body))
    else if b.Bad? then Broken
    else if b.Good? && b.generation == g && |b.body| == COMMIT_LEN then Found(FromLE(b.body))
    else Missing
  }

  /** The body shard `i` holds for a generation, first slot first. */
  function ShardBody(s: Store, g: nat, i: nat): Search<seq<Byte>>
    requires i < |s.data|
  {
    var a, b := OpenShard(s.applet, i, s.data[i].s0), OpenShard(s.applet, i, s.data[i].s1);
    if a.Bad? then Broken
    else if a.Good? && a.generation == g then Found(a.body)
    else if b.Bad? then Broken
    else if b.Good? && b.generation == g then Found(b.body)
    else Missing
  }

  datatype LoadResult = Failed | Empty | Blob(bytes: seq<Byte>)

  /** No slot of the store fails to open. */
  predicate AllOpen(s: Store)
  {
    && !OpenShard(s.applet, |s.data|, s.commit.s0).Bad? && !OpenShard(s.applet, |s.data|, s.commit.s1).Bad?
    && forall i :: 0 <= i < |s.data| ==>
         !OpenShard(s.applet, i, s.data[i].s0).Bad? && !OpenShard(s.applet, i, s.data[i].s1).Bad?
  }

  function Take(body: seq<Byte>, room: nat): seq<Byte>
  {
    if |body| <= room then body else body[..room]
  }

  /** The first `i` shards of a generation, cut at `total`; the first shard that fails decides how. */
  function Gathered(s: Store, g: nat, total: nat, i: nat): (out: Search<seq<Byte>>)
    requires i <= |s.data|
    ensures out.Found? ==> |out.value| <= total
  {
    if i == 0 then Found([])
    else
      var rest := Gathered(s, g, total, i - 1);
      var body := ShardBody(s, g, i - 1);
      if !rest.Found? then rest
      else if !body.Found? then body
      else Found(rest.value + Take(body.value, total - |rest.value|))
  }

  /** `Ok(None)` is `Empty`: this generation cannot be assembled. */
  function Assembled(s: Store, g: nat, room: nat): LoadResult
  {
    match CommitTotal(s, g)
    case Found(total) =>
      if total > |s.data| * SHARD_BODY_MAX || room < total then Failed
      else
        (match Gathered(s, g, total, |s.data|)
         case Broken => Failed
         case Missing => Empty
         case Found(out) => if |out| < total then Empty else Blob(out))
    case _ => Failed
  }

  function Candidate(s: Store, slot: Slot<Payload>): Option<nat>
  {
    match OpenShard(s.applet, |s.data|, slot)
    case Good(g, body) => if |body| == COMMIT_LEN then Some(g) else None
    case _ => None
  }

  /** A load: candidates newest generation first; an unopenable slot it meets is an error. */
  function LoadedBlob(s: Store, room: nat): LoadResult
  {
    var a, b := Candidate(s, s.commit.s0), Candidate(s, s.commit.s1);
    if OpenShard(s.applet, |s.data|, s.commit.s0).Bad? || OpenShard(s.applet, |s.data|, s.commit.s1).Bad? then Failed
    else if a.None? && b.None? then Empty
    else if a.Some? && b.Some? then
      var hi, lo := if b.value > a.value then b.value else a.value, if b.value > a.value then a.value else b.value;
      var first := Assembled(s, hi, room);
      if !first.Empty? then first
      else
        var second := Assembled(s, lo, room);
        if second.Empty? then Failed else second
    else
      var only := Assembled(s, if a.Some? then a.value else b.value, room);
      if only.Empty? then Failed else only
  }
}
