/**
 What every run of saves, interrupted anywhere, keeps of a sharded sealed blob.
 */
module SealedBlobSafety {
  import opened Wrappers
  import opened Bytes
  import opened SlotStore
  import opened SealedBlob

  // ----- one cell -----------------------------------------------------------------------

  /** A readable slot is a record this device sealed for this shard. */
  predicate SlotWell(applet: nat, shard: nat, commit: bool, slot: Slot<Payload>)
  {
    slot.Record? ==>
      && slot.payload.Sealed?
      && slot.payload.nonce == Nonce(slot.payload.generation, applet, shard)
      && (commit ==> |slot.payload.body| == COMMIT_LEN)
  }

  /** Both slots are well formed and the newer record has the higher generation. */
  predicate CellWell(applet: nat, shard: nat, commit: bool, c: Cell<Payload>)
  {
    && SlotWell(applet, shard, commit, c.s0) && SlotWell(applet, shard, commit, c.s1)
    && (c.s0.Record? && c.s1.Record? ==>
          && c.s0.sequence != c.s1.sequence
          && c.s0.payload.generation != c.s1.payload.generation
          && (c.s0.sequence < c.s1.sequence <==> c.s0.payload.generation < c.s1.payload.generation))
  }

  /** The generation of a readable well-formed slot, zero otherwise. */
  function Gen(slot: Slot<Payload>): nat
  {
    if slot.Record? && slot.payload.Sealed? then slot.payload.generation else 0
  }

  predicate Holds(slot: Slot<Payload>, g: nat)
  {
    slot.Record? && slot.payload.Sealed? && slot.payload.generation == g
  }

  /** The newest generation of a cell, zero when it is blank. */
  function TopGen(c: Cell<Payload>): nat
  {
    if Gen(c.s0) < Gen(c.s1) then Gen(c.s1) else Gen(c.s0)
  }

  /**
   How far a shard has moved past generation `g`: it is the newest record (0), it
   survives in the older slot (1), or it has been overwritten (2).
   */
  function Phase(c: Cell<Payload>, g: nat): (p: nat)
    ensures p <= 2
  {
    if !Holds(c.s0, g) && !Holds(c.s1, g) then 2 else if TopGen(c) == g then 0 else 1
  }

  /** A shard of the committed generation: its record is intact, or only newer ones are left. */
  predicate ShardShape(c: Cell<Payload>, g: nat, chunk: seq<Byte>)
  {
    && (Holds(c.s0, g) ==> c.s0.payload.body == chunk)
    && (Holds(c.s1, g) ==> c.s1.payload.body == chunk)
    && TopGen(c) >= g
    && (Phase(c, g) == 2 ==> (c.s0.Record? ==> Gen(c.s0) > g) && (c.s1.Record? ==> Gen(c.s1) > g))
  }

  /** What one store does to the phase of a shard. */
  function PhaseStep(p: nat, o: Outcome): nat
  {
    match o
    case Untouched => p
    case Torn => if p >= 1 then 2 else 0
    case Completed => if p >= 1 then 2 else 1
  }

  lemma CellStep(applet: nat, shard: nat, commit: bool, c: Cell<Payload>, g: nat, body: seq<Byte>, o: Outcome)
    requires CellWell(applet, shard, commit, c) && Headroom(c)
    requires TopGen(c) < g && (commit ==> |body| == COMMIT_LEN)
    ensures
      var c' := Stored(c, Seal(applet, shard, g, body), o);
      && CellWell(applet, shard, commit, c')
      && TopGen(c') == (if o.Completed? then g else TopGen(c))
      && (o.Completed? ==> forall slot :: slot == c'.s0 || slot == c'.s1 ==>
            (Holds(slot, g) ==> slot.payload.body == body))
      && (o.Completed? ==> Holds(c'.s0, g) || Holds(c'.s1, g))
  {
    NextIsAbove(c);
    hide Nonce, Headroom, NextSequence;
  }

  lemma PhaseOfStore(
    applet: nat, shard: nat, c: Cell<Payload>, g: nat, body: seq<Byte>, o: Outcome, kept: nat, chunk: seq<Byte>)
    requires CellWell(applet, shard, false, c) && Headroom(c)
    requires TopGen(c) < g && kept >= 1
    requires ShardShape(c, kept, chunk)
    ensures
      var c' := Stored(c, Seal(applet, shard, g, body), o);
      && ShardShape(c', kept, chunk)
      && Phase(c', kept) == PhaseStep(Phase(c, kept), o)
  {
  }

  // ----- the whole store --------------------------------------------------------------------

  datatype Commit = Commit(generation: nat, blob: seq<Byte>)

  /** What the history of saves left behind: the last commit and the wear since then. */
  datatype Ledger = Ledger(last: Option<Commit>, wear: nat)

  predicate CellsWell(s: Store)
  {
    && CellWell(s.applet, |s.data|, true, s.commit)
    && forall j :: 0 <= j < |s.data| ==> CellWell(s.applet, j, false, s.data[j])
  }

  /** The commit cell and the shards agree with the last commit. */
  predicate CommitShape(s: Store, c: Commit, wear: nat)
  {
    && |s.data| > 0 && c.generation >= 1
    && |c.blob| <= |s.data| * SHARD_BODY_MAX && |c.blob| < U32
    && TopGen(s.commit) == c.generation
    && (Holds(s.commit.s0, c.generation) ==> s.commit.s0.payload.body == ToLE(|c.blob|, COMMIT_LEN))
    && (Holds(s.commit.s1, c.generation) ==> s.commit.s1.payload.body == ToLE(|c.blob|, COMMIT_LEN))
    && (Holds(s.commit.s0, c.generation) || Holds(s.commit.s1, c.generation))
    && (forall j :: 0 <= j < |s.data| ==> ShardShape(s.data[j], c.generation, Chunk(c.blob, j)))
    && (forall j :: 0 <= j < |s.data| ==> Phase(s.data[j], c.generation) <= wear)
    && Phase(s.data[0], c.generation) == wear
  }

  predicate Inv(s: Store, l: Ledger)
  {
    && |s.data| > 0 && CellsWell(s) && l.wear <= 2
    && match l.last
       case None => s.commit == Blank()
       case Some(c) => CommitShape(s, c, l.wear)
  }

  /** No counter is about to wrap: 32-bit slot sequences and the 64-bit generation. */
  ghost predicate Room(s: Store)
  {
    && Headroom(s.commit) && TopGen(s.commit) + 1 < U64
    && forall j :: 0 <= j < |s.data| ==> Headroom(s.data[j]) && TopGen(s.data[j]) + 1 < U64
  }

  lemma CellGenIs(applet: nat, shard: nat, commit: bool, c: Cell<Payload>)
    requires CellWell(applet, shard, commit, c)
    ensures CellGen(applet, shard, commit, c) == Some(TopGen(c))
  {
    hide Nonce;
  }

  lemma {:induction false} DataGenIs(s: Store, k: nat)
    requires CellsWell(s) && k <= |s.data|
    ensures DataGen(s, k).Some?
    ensures forall j :: 0 <= j < k ==> TopGen(s.data[j]) <= DataGen(s, k).value
    ensures DataGen(s, k).value == 0 || exists j :: 0 <= j < k && TopGen(s.data[j]) == DataGen(s, k).value
  {
    hide CellGen, TopGen, CellWell;
    if k > 0 {
      DataGenIs(s, k - 1);
      CellGenIs(s.applet, k - 1, false, s.data[k - 1]);
    }
  }

  /** The fresh generation is above every generation in the store and does not wrap. */
  lemma FreshGenIs(s: Store)
    requires CellsWell(s) && Room(s)
    ensures FreshGen(s).Some? && 1 <= FreshGen(s).value < U64
    ensures TopGen(s.commit) < FreshGen(s).value
    ensures forall j :: 0 <= j < |s.data| ==> TopGen(s.data[j]) < FreshGen(s).value
    ensures FreshGen(s).value == 1 || TopGen(s.commit) + 1 == FreshGen(s).value
      || exists j :: 0 <= j < |s.data| && TopGen(s.data[j]) + 1 == FreshGen(s).value
  {
    hide CellGen, TopGen, CellWell, Headroom;
    DataGenIs(s, |s.data|);
    CellGenIs(s.applet, |s.data|, true, s.commit);
    var d := DataGen(s, |s.data|).value;
    assert d + 1 < U64;
    var seen := if d < TopGen(s.commit) then TopGen(s.commit) else d;
    assert FreshGen(s) == Some((seen + 1) % U64);
    assert (seen + 1) % U64 == seen + 1;
  }

  /** The cell of shard `j` after a save, in closed form. */
  function ShardAfter(s: Store, blob: seq<Byte>, g: nat, f: Fault, j: nat): Cell<Payload>
    requires j < |s.data|
  {
    if Reached(f, j) then Stored(s.data[j], Seal(s.applet, j, g, Chunk(blob, j)), Ends(f, j)) else s.data[j]
  }

  lemma {:induction false} SavedShardsAre(s: Store, blob: seq<Byte>, g: nat, f: Fault, i: nat)
    requires i <= |s.data|
    ensures forall j :: 0 <= j < i ==> SavedShards(s, blob, g, f, i).data[j] == ShardAfter(s, blob, g, f, j)
  {
    if i > 0 {
      SavedShardsAre(s, blob, g, f, i - 1);
    }
  }

  /** The ledger after one save. */
  function Advance(s: Store, l: Ledger, blob: seq<Byte>, f: Fault): Ledger
  {
    var g := FreshGen(s);
    if |blob| > |s.data| * SHARD_BODY_MAX || g.None? then l
    else if Interrupts(f, |s.data|) then l.(wear := PhaseStep(l.wear, Ends(f, 0)))
    else Ledger(Some(Commit(g.value, blob)), 0)
  }

  lemma ShardsStayWell(s: Store, blob: seq<Byte>, g: nat, f: Fault, j: nat)
    requires CellsWell(s) && Room(s) && j < |s.data| && TopGen(s.data[j]) < g
    ensures CellWell(s.applet, j, false, ShardAfter(s, blob, g, f, j))
    ensures TopGen(ShardAfter(s, blob, g, f, j)) ==
      if Reached(f, j) && Ends(f, j).Completed? then g else TopGen(s.data[j])
  {
    CellStep(s.applet, j, false, s.data[j], g, Chunk(blob, j), Ends(f, j));
  }

  lemma SavedWell(s: Store, blob: seq<Byte>, f: Fault)
    requires |s.data| > 0 && CellsWell(s) && Room(s)
    ensures CellsWell(Saved(s, blob, f)) && |Saved(s, blob, f).data| == |s.data|
    ensures Saved(s, blob, f).applet == s.applet
  {
    hide Chunk, Nonce, ToLE, CellGen, FreshGen, Stored, Headroom;
    FreshGenIs(s);
    if |blob| <= |s.data| * SHARD_BODY_MAX {
      var g, n := FreshGen(s).value, |s.data|;
      SavedShardsAre(s, blob, g, f, n);
      CellStep(s.applet, n, true, s.commit, g, ToLE(|blob|, COMMIT_LEN), Ends(f, n));
      var s' := Saved(s, blob, f);
      forall j | 0 <= j < n ensures CellWell(s'.applet, j, false, s'.data[j]) {
        ShardsStayWell(s, blob, g, f, j);
      }
    }
  }

  /** A completed commit leaves every shard fresh under the new generation. */
  lemma CommitLands(s: Store, blob: seq<Byte>, f: Fault)
    requires |s.data| > 0 && CellsWell(s) && Room(s)
    requires |blob| <= |s.data| * SHARD_BODY_MAX && |blob| < U32
    requires !Interrupts(f, |s.data|)
    ensures FreshGen(s).Some?
    ensures CommitShape(Saved(s, blob, f), Commit(FreshGen(s).value, blob), 0)
  {
    hide Chunk, Nonce, ToLE, CellGen, FreshGen, Stored, Headroom;
    FreshGenIs(s);
    var g, n := FreshGen(s).value, |s.data|;
    SavedShardsAre(s, blob, g, f, n);
    CellStep(s.applet, n, true, s.commit, g, ToLE(|blob|, COMMIT_LEN), Ends(f, n));
    var s' := Saved(s, blob, f);
    forall j | 0 <= j < n
      ensures ShardShape(s'.data[j], g, Chunk(blob, j)) && Phase(s'.data[j], g) == 0
    {
      CellStep(s.applet, j, false, s.data[j], g, Chunk(blob, j), Completed);
    }
  }

  /** An interrupted save keeps the last commit and wears the shards by at most one step. */
  lemma InterruptedKeeps(s: Store, c: Commit, wear: nat, blob: seq<Byte>, f: Fault)
    requires |s.data| > 0 && CellsWell(s) && Room(s) && CommitShape(s, c, wear)
    requires |blob| <= |s.data| * SHARD_BODY_MAX && Interrupts(f, |s.data|)
    ensures CommitShape(Saved(s, blob, f), c, PhaseStep(wear, Ends(f, 0)))
  {
    hide Stored, Chunk, Nonce, PhaseStep, Room;
    FreshGenIs(s);
    var g, n := FreshGen(s).value, |s.data|;
    SavedShardsAre(s, blob, g, f, n);
    var s' := Saved(s, blob, f);
    RoomOf(s);
    if Reached(f, n) {
      CommitCellKept(s, c, blob, g, f);
    }
    forall j | 0 <= j < n
      ensures ShardShape(s'.data[j], c.generation, Chunk(c.blob, j))
      ensures Phase(s'.data[j], c.generation) <= PhaseStep(wear, Ends(f, 0))
      ensures j == 0 ==> Phase(s'.data[j], c.generation) == PhaseStep(wear, Ends(f, 0))
    {
      ShardKept(s, c, wear, blob, g, f, j);
    }
  }

  lemma RoomOf(s: Store)
    requires Room(s)
    ensures Headroom(s.commit) && forall j :: 0 <= j < |s.data| ==> Headroom(s.data[j])
  {
  }

  lemma ShardKept(s: Store, c: Commit, wear: nat, blob: seq<Byte>, g: nat, f: Fault, j: nat)
    requires j < |s.data| && CellWell(s.applet, j, false, s.data[j]) && Headroom(s.data[j])
    requires TopGen(s.data[j]) < g && c.generation >= 1
    requires ShardShape(s.data[j], c.generation, Chunk(c.blob, j))
    requires Phase(s.data[j], c.generation) <= wear <= 2
    requires j == 0 ==> Phase(s.data[j], c.generation) == wear
    ensures
      var d := ShardAfter(s, blob, g, f, j);
      && ShardShape(d, c.generation, Chunk(c.blob, j))
      && Phase(d, c.generation) <= PhaseStep(wear, Ends(f, 0))
      && (j == 0 ==> Phase(d, c.generation) == PhaseStep(wear, Ends(f, 0)))
  {
    hide Stored, Chunk, Nonce, ShardShape, Phase;
    if Reached(f, j) {
      PhaseOfStore(s.applet, j, s.data[j], g, Chunk(blob, j), Ends(f, j), c.generation, Chunk(c.blob, j));
    }
  }

  lemma CommitCellKept(s: Store, c: Commit, blob: seq<Byte>, g: nat, f: Fault)
    requires CellWell(s.applet, |s.data|, true, s.commit) && Headroom(s.commit)
    requires TopGen(s.commit) == c.generation >= 1
    requires Interrupts(f, |s.data|) && Reached(f, |s.data|)
    ensures
      var d := Stored(s.commit, CommitRecord(s, blob, g), Ends(f, |s.data|));
      && TopGen(d) == c.generation
      && (Holds(s.commit.s0, c.generation) ==> d.s0 == s.commit.s0)
      && (Holds(s.commit.s1, c.generation) ==> d.s1 == s.commit.s1)
      && (Holds(d.s0, c.generation) ==> d.s0 == s.commit.s0)
      && (Holds(d.s1, c.generation) ==> d.s1 == s.commit.s1)
  {
  }

  /** Every save, however it ends, keeps the invariant. */
  lemma SaveKeepsInv(s: Store, l: Ledger, blob: seq<Byte>, f: Fault)
    requires Inv(s, l) && Room(s) && |blob| < U32
    ensures Inv(Saved(s, blob, f), Advance(s, l, blob, f))
  {
    hide CommitShape, CellsWell, Room;
    SavedWell(s, blob, f);
    assert FreshGen(s).Some? by { FreshGenIs(s); }
    if |blob| <= |s.data| * SHARD_BODY_MAX {
      if !Interrupts(f, |s.data|) {
        CommitLands(s, blob, f);
      } else {
        match l.last {
          case Some(c) => InterruptedKeeps(s, c, l.wear, blob, f);
          case None =>
        }
      }
    }
  }

  // ----- runs ---------------------------------------------------------------------------------

  datatype Event = Event(blob: seq<Byte>, fault: Fault)

  function Run(s: Store, events: seq<Event>): Store
    decreases |events|
  {
    if events == [] then s else Run(Saved(s, events[0].blob, events[0].fault), events[1..])
  }

  function RunLedger(s: Store, l: Ledger, events: seq<Event>): Ledger
    decreases |events|
  {
    if events == [] then l
    else
      var e := events[0];
      RunLedger(Saved(s, e.blob, e.fault), Advance(s, l, e.blob, e.fault), events[1..])
  }

  /** The counters have room for every save of the run. */
  ghost predicate RunRoom(s: Store, events: seq<Event>)
    decreases |events|
  {
    events != [] ==>
      && Room(s) && |events[0].blob| < U32
      && RunRoom(Saved(s, events[0].blob, events[0].fault), events[1..])
  }

  lemma {:induction false} RunKeepsInv(s: Store, l: Ledger, events: seq<Event>)
    requires Inv(s, l) && RunRoom(s, events)
    ensures Inv(Run(s, events), RunLedger(s, l, events))
    decreases |events|
  {
    hide Inv, Room;
    if events != [] {
      SaveKeepsInv(s, l, events[0].blob, events[0].fault);
      var e := events[0];
      RunKeepsInv(Saved(s, e.blob, e.fault), Advance(s, l, e.blob, e.fault), events[1..]);
    }
  }

  function Fresh(applet: nat, n: nat): Store
  {
    Store(applet, seq(n, i => Blank()), Blank())
  }

  // ----- what load returns ----------------------------------------------------------------------

  /** The answer the history calls for. */
  function Answer(l: Ledger, room: nat): LoadResult
  {
    match l.last
    case None => Empty
    case Some(c) => if l.wear == 2 || room < |c.blob| then Failed else Blob(c.blob)
  }

  /** The first `i` chunks of a blob, joined. */
  function Prefix(blob: seq<Byte>, i: nat): seq<Byte>
  {
    if i * SHARD_BODY_MAX <= |blob| then blob[..i * SHARD_BODY_MAX] else blob
  }

  lemma NextChunk(blob: seq<Byte>, i: nat)
    ensures |Prefix(blob, i)| <= |blob|
    ensures Prefix(blob, i + 1) == Prefix(blob, i) + Take(Chunk(blob, i), |blob| - |Prefix(blob, i)|)
  {
  }

  lemma {:induction false} GatherChunks(s: Store, c: Commit, i: nat)
    requires i <= |s.data|
    requires forall j :: 0 <= j < i ==> ShardBody(s, c.generation, j) == Found(Chunk(c.blob, j))
    ensures Gathered(s, c.generation, |c.blob|, i) == Found(Prefix(c.blob, i))
  {
    hide ShardBody, Chunk, Prefix, Take;
    if i > 0 {
      GatherChunks(s, c, i - 1);
      NextChunk(c.blob, i - 1);
    } else {
      assert Prefix(c.blob, 0) == [] by { EmptyPrefix(c.blob); }
    }
  }

  lemma EmptyPrefix(blob: seq<Byte>)
    ensures Prefix(blob, 0) == []
  {
  }

  lemma ShardBodyIs(s: Store, c: Commit, j: nat)
    requires CellsWell(s) && j < |s.data| && ShardShape(s.data[j], c.generation, Chunk(c.blob, j))
    ensures ShardBody(s, c.generation, j) ==
      if Phase(s.data[j], c.generation) == 2 then Missing else Found(Chunk(c.blob, j))
  {
    hide Nonce, Chunk;
    assert CellWell(s.applet, j, false, s.data[j]);
  }

  lemma AssembleCommitted(s: Store, c: Commit, wear: nat, room: nat)
    requires CellsWell(s) && CommitShape(s, c, wear)
    ensures Assembled(s, c.generation, room) ==
      if room < |c.blob| then Failed else if wear == 2 then Empty else Blob(c.blob)
  {
    hide Chunk;
    assert CommitTotal(s, c.generation) == Found(|c.blob|) by {
      PowerTable();
      LERoundTrip(|c.blob|, COMMIT_LEN);
    }
    if room >= |c.blob| {
      var n := |s.data|;
      if wear == 2 {
        ShardBodyIs(s, c, 0);
        MissingFirstShard(s, c.generation, |c.blob|, n);
      } else {
        forall j | 0 <= j < n ensures ShardBody(s, c.generation, j) == Found(Chunk(c.blob, j)) {
          ShardBodyIs(s, c, j);
        }
        GatherChunks(s, c, n);
      }
    }
  }

  lemma {:induction false} MissingFirstShard(s: Store, g: nat, total: nat, i: nat)
    requires 1 <= i <= |s.data| && ShardBody(s, g, 0).Missing?
    ensures Gathered(s, g, total, i).Missing?
  {
    if i > 1 { MissingFirstShard(s, g, total, i - 1); }
  }

  /** An older commit record never assembles once the newer generation is worn out. */
  lemma OlderCommitFails(s: Store, c: Commit, g: nat, room: nat)
    requires CellsWell(s) && CommitShape(s, c, 2) && g < c.generation
    ensures !Assembled(s, g, room).Blob?
  {
    hide Chunk, Nonce;
    assert CellWell(s.applet, 0, false, s.data[0]);
    assert ShardBody(s, g, 0).Missing?;
    if CommitTotal(s, g).Found? {
      MissingFirstShard(s, g, CommitTotal(s, g).value, |s.data|);
    }
  }

  lemma LoadIsAnswer(s: Store, l: Ledger, room: nat)
    requires Inv(s, l)
    ensures LoadedBlob(s, room) == Answer(l, room)
    ensures AllOpen(s)
  {
    hide Assembled, ShardShape, Nonce;
    assert CellsWell(s);
    match l.last {
      case None =>
      case Some(c) =>
        AssembleCommitted(s, c, l.wear, room);
        var a, b := Candidate(s, s.commit.s0), Candidate(s, s.commit.s1);
        if l.wear == 2 && a.Some? && b.Some? {
          OlderCommitFails(s, c, if a.value == c.generation then b.value else a.value, room);
        }
    }
  }

  // ----- the history, read off the events alone ----------------------------------------------------

  /** The last committed blob and the wear of the saves interrupted since. */
  datatype Past = Past(last: Option<seq<Byte>>, wear: nat)

  function After(n: nat, p: Past, e: Event): Past
  {
    if |e.blob| > n * SHARD_BODY_MAX then p
    else if Interrupts(e.fault, n) then p.(wear := PhaseStep(p.wear, Ends(e.fault, 0)))
    else Past(Some(e.blob), 0)
  }

  function History(n: nat, p: Past, events: seq<Event>): Past
    decreases |events|
  {
    if events == [] then p else History(n, After(n, p, events[0]), events[1..])
  }

  function PastOf(l: Ledger): Past
  {
    Past(if l.last.Some? then Some(l.last.value.blob) else None, l.wear)
  }

  lemma {:induction false} LedgerIsHistory(s: Store, l: Ledger, events: seq<Event>)
    requires Inv(s, l) && RunRoom(s, events)
    ensures PastOf(RunLedger(s, l, events)) == History(|s.data|, PastOf(l), events)
    decreases |events|
  {
    hide Inv, Room, Saved;
    if events != [] {
      var e := events[0];
      InvHasFresh(s, l);
      SaveKeepsInv(s, l, e.blob, e.fault);
      LedgerIsHistory(Saved(s, e.blob, e.fault), Advance(s, l, e.blob, e.fault), events[1..]);
    }
  }

  lemma InvHasFresh(s: Store, l: Ledger)
    requires Inv(s, l) && Room(s)
    ensures FreshGen(s).Some?
    ensures forall blob, f :: |Saved(s, blob, f).data| == |s.data|
  {
    FreshGenIs(s);
    forall blob, f ensures |Saved(s, blob, f).data| == |s.data| { SavedWell(s, blob, f); }
  }

  /**
   Over any run of saves from a blank region, each completed or stopped anywhere, a load
   returns byte for byte the last committed blob, "blank" if none was committed, or an
   error. The error comes exactly when the wear reached two, or the buffer is too small.
   */
  lemma LoadAfterRun(applet: nat, n: nat, events: seq<Event>, room: nat)
    requires n > 0 && RunRoom(Fresh(applet, n), events)
    ensures
      var p := History(n, Past(None, 0), events);
      var r := LoadedBlob(Run(Fresh(applet, n), events), room);
      && (p.last.None? ==> r == Empty)
      && (p.last.Some? && (p.wear == 2 || room < |p.last.value|) ==> r == Failed)
      && (p.last.Some? && p.wear != 2 && room >= |p.last.value| ==> r == Blob(p.last.value))
  {
    hide LoadedBlob, Inv;
    var s, l := Fresh(applet, n), Ledger(None, 0);
    FreshInv(applet, n);
    RunKeepsInv(s, l, events);
    LedgerIsHistory(s, l, events);
    LoadIsAnswer(Run(s, events), RunLedger(s, l, events), room);
  }

  lemma FreshInv(applet: nat, n: nat)
    requires n > 0
    ensures Inv(Fresh(applet, n), Ledger(None, 0)) && |Fresh(applet, n).data| == n
  {
  }

  lemma {:induction false} HistoryAppend(n: nat, p: Past, events: seq<Event>, e: Event)
    ensures History(n, p, events + [e]) == After(n, History(n, p, events), e)
    decreases |events|
  {
    if events != [] {
      HistoryAppend(n, After(n, p, events[0]), events[1..], e);
      assert (events + [e])[1..] == events[1..] + [e];
    }
  }

  predicate Commits(n: nat, e: Event) { |e.blob| <= n * SHARD_BODY_MAX && !Interrupts(e.fault, n) }

  /** With at most one interrupted save since the last commit, that commit always loads. */
  lemma OneInterruptionIsHarmless(applet: nat, n: nat, before: seq<Event>, commit: Event, cut: Event, room: nat)
    requires n > 0 && Commits(n, commit) && room >= |commit.blob|
    requires Interrupts(cut.fault, n)
    requires RunRoom(Fresh(applet, n), before + [commit]) && RunRoom(Fresh(applet, n), before + [commit] + [cut])
    ensures LoadedBlob(Run(Fresh(applet, n), before + [commit]), room) == Blob(commit.blob)
    ensures LoadedBlob(Run(Fresh(applet, n), before + [commit] + [cut]), room) == Blob(commit.blob)
  {
    hide LoadedBlob, Run, RunRoom;
    HistoryAppend(n, Past(None, 0), before, commit);
    HistoryAppend(n, Past(None, 0), before + [commit], cut);
    LoadAfterRun(applet, n, before + [commit], room);
    LoadAfterRun(applet, n, before + [commit] + [cut], room);
  }

  /**
   Two interrupted saves since the last commit make the load fail exactly when the first
   completed its first shard and the second at least began to rewrite it.
   */
  lemma TwoInterruptions(applet: nat, n: nat, before: seq<Event>, commit: Event, cut1: Event, cut2: Event, room: nat)
    requires n > 0 && Commits(n, commit) && room >= |commit.blob|
    requires Interrupts(cut1.fault, n) && |cut1.blob| <= n * SHARD_BODY_MAX
    requires Interrupts(cut2.fault, n) && |cut2.blob| <= n * SHARD_BODY_MAX
    requires RunRoom(Fresh(applet, n), before + [commit] + [cut1] + [cut2])
    ensures LoadedBlob(Run(Fresh(applet, n), before + [commit] + [cut1] + [cut2]), room) == Failed
      <==> Ends(cut1.fault, 0).Completed? && !Ends(cut2.fault, 0).Untouched?
  {
    hide LoadedBlob, Run, RunRoom;
    HistoryAppend(n, Past(None, 0), before, commit);
    HistoryAppend(n, Past(None, 0), before + [commit], cut1);
    HistoryAppend(n, Past(None, 0), before + [commit] + [cut1], cut2);
    LoadAfterRun(applet, n, before + [commit] + [cut1] + [cut2], room);
  }

  // ----- generations and nonces ------------------------------------------------------------------------

  /** Cell `j` of a store; the commit cell is number `n`. */
  function CellAt(s: Store, j: nat): Cell<Payload>
    requires j <= |s.data|
  {
    if j < |s.data| then s.data[j] else s.commit
  }

  /** The generation a save completes into cell `j`, if it gets that far. */
  function Lands(s: Store, e: Event, j: nat): Option<nat>
  {
    if |e.blob| <= |s.data| * SHARD_BODY_MAX && Reached(e.fault, j) && Ends(e.fault, j).Completed?
    then FreshGen(s) else None
  }

  lemma SaveLands(s: Store, e: Event, j: nat)
    requires |s.data| > 0 && CellsWell(s) && Room(s) && j <= |s.data|
    ensures |Saved(s, e.blob, e.fault).data| == |s.data|
    ensures Lands(s, e, j).Some? ==> TopGen(CellAt(s, j)) < Lands(s, e, j).value < U64
    ensures TopGen(CellAt(Saved(s, e.blob, e.fault), j)) ==
      if Lands(s, e, j).Some? then Lands(s, e, j).value else TopGen(CellAt(s, j))
  {
    hide Chunk, Nonce;
    FreshGenIs(s);
    SavedWell(s, e.blob, e.fault);
    var g, n := FreshGen(s).value, |s.data|;
    if |e.blob| <= n * SHARD_BODY_MAX {
      SavedShardsAre(s, e.blob, g, e.fault, n);
      if j < n {
        ShardsStayWell(s, e.blob, g, e.fault, j);
      } else {
        CellStep(s.applet, n, true, s.commit, g, ToLE(|e.blob|, COMMIT_LEN), Ends(e.fault, n));
      }
    }
  }

  /** The generations completed into cell `j` over a run, in order. */
  function Completions(s: Store, events: seq<Event>, j: nat): seq<nat>
    decreases |events|
  {
    if events == [] then []
    else
      var rest := Completions(Saved(s, events[0].blob, events[0].fault), events[1..], j);
      var g := Lands(s, events[0], j);
      if g.Some? then [g.value] + rest else rest
  }

  /** A strictly increasing list of 64-bit generations above `low`. */
  predicate Rising(log: seq<nat>, low: nat)
  {
    && (forall x :: 0 <= x < |log| ==> low < log[x] < U64)
    && (forall x, y :: 0 <= x < y < |log| ==> log[x] < log[y])
  }

  lemma RisingCons(g: nat, rest: seq<nat>, low: nat)
    requires low < g < U64 && Rising(rest, g)
    ensures Rising([g] + rest, low)
  {
  }

  /** Completed writes to one cell carry strictly increasing generations. */
  lemma {:induction false} GenerationsIncrease(s: Store, events: seq<Event>, j: nat)
    requires |s.data| > 0 && CellsWell(s) && RunRoom(s, events) && j <= |s.data|
    ensures Rising(Completions(s, events, j), TopGen(CellAt(s, j)))
    decreases |events|
  {
    hide CellsWell, Room, Saved, TopGen, CellAt, Lands;
    if events != [] {
      var e := events[0];
      var s' := Saved(s, e.blob, e.fault);
      SavedWell(s, e.blob, e.fault);
      SaveLands(s, e, j);
      GenerationsIncrease(s', events[1..], j);
      if Lands(s, e, j).Some? {
        RisingCons(Lands(s, e, j).value, Completions(s', events[1..], j), TopGen(CellAt(s, j)));
      }
    }
  }

  /** No two completed writes of a run, in one cell or across cells, share a nonce. */
  lemma CompletedNoncesDistinct(s: Store, events: seq<Event>, i: nat, x: nat, j: nat, y: nat)
    requires |s.data| > 0 && CellsWell(s) && RunRoom(s, events)
    requires i <= |s.data| && j <= |s.data| && |s.data| < U16 && s.applet < U16
    requires x < |Completions(s, events, i)| && y < |Completions(s, events, j)|
    requires (i, x) != (j, y)
    ensures Nonce(Completions(s, events, i)[x], s.applet, i) != Nonce(Completions(s, events, j)[y], s.applet, j)
  {
    hide CellsWell, RunRoom, Completions, Nonce;
    GenerationsIncrease(s, events, i);
    GenerationsIncrease(s, events, j);
    var g, h := Completions(s, events, i)[x], Completions(s, events, j)[y];
    if Nonce(g, s.applet, i) == Nonce(h, s.applet, j) {
      NonceInjective(g, s.applet, i, h, s.applet, j);
      assert false;
    }
  }

  /**
   An accepted save makes the next save use a later generation exactly when its first
   store completed: a save stopped inside its first store leaves no trace of its
   generation, and the retry takes the same number again.
   */
  lemma GenerationAdvancesIff(s: Store, blob: seq<Byte>, f: Fault)
    requires |s.data| > 0 && CellsWell(s) && Room(s) && |blob| <= |s.data| * SHARD_BODY_MAX
    requires Room(Saved(s, blob, f))
    ensures FreshGen(s).Some? && FreshGen(Saved(s, blob, f)).Some?
    ensures FreshGen(Saved(s, blob, f)).value > FreshGen(s).value <==> Ends(f, 0).Completed?
    ensures !Ends(f, 0).Completed? ==> FreshGen(Saved(s, blob, f)).value == FreshGen(s).value
  {
    hide Saved, CellsWell, Room, TopGen, FreshGen;
    var e := Event(blob, f);
    var s' := Saved(s, blob, f);
    SavedWell(s, blob, f);
    FreshGenIs(s);
    FreshGenIs(s');
    SaveLands(s, e, |s.data|);
    forall j | 0 <= j < |s.data|
      ensures TopGen(s'.data[j]) == if Lands(s, e, j).Some? then FreshGen(s).value else TopGen(s.data[j])
    {
      SaveLands(s, e, j);
    }
    assert TopGen(CellAt(s', |s.data|)) == TopGen(s'.commit);
    if Ends(f, 0).Completed? {
      assert TopGen(s'.data[0]) == FreshGen(s).value;
    }
  }
}
