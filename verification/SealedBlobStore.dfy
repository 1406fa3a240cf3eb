/** The sharded sealed blob as the firmware runs it: cells rewritten in place, shard by shard. */
module SealedBlobStore {
  import opened Wrappers
  import opened Bytes
  import opened SlotStore
  import opened SealedBlob

  class BlobStore {
    const applet: nat
    var data: seq<Cell<Payload>>
    var commit: Cell<Payload>

    function View(): Store
      reads this
    {
      Store(applet, data, commit)
    }

    /** A blank region with `shards` data cells. */
    constructor (applet: nat, shards: nat)
      ensures View() == Store(applet, seq(shards, i => Blank()), Blank())
    {
      this.applet := applet;
      data := seq(shards, i => Blank());
      commit := Blank();
    }

    /** The largest generation over both slots of one cell; `None` when one does not open. */
    method ObserveCell(c: Cell<Payload>, shard: nat, isCommit: bool, seen: nat) returns (g: Option<nat>)
      ensures g == Larger(Some(seen), CellGen(applet, shard, isCommit, c))
    {
      var generation := seen;
      for slot := 0 to 2
        invariant slot == 0 ==> generation == seen
        invariant slot >= 1 ==> SlotGen(applet, shard, isCommit, c.s0).Some?
        invariant slot == 1 ==> Larger(Some(seen), SlotGen(applet, shard, isCommit, c.s0)) == Some(generation)
        invariant slot == 2 ==> Larger(Some(seen), CellGen(applet, shard, isCommit, c)) == Some(generation)
      {
        var found := SlotGen(applet, shard, isCommit, At(c, slot));
        if found.None? {
          return None;
        }
        if generation < found.value {
          generation := found.value;
        }
      }
      g := Some(generation);
    }

    method FreshGeneration() returns (g: Option<nat>)
      ensures g == FreshGen(View())
    {
      hide CellGen;
      var seen := 0;
      for index := 0 to |data|
        invariant DataGen(View(), index) == Some(seen)
      {
        var o := ObserveCell(data[index], index, false, seen);
        if o.None? {
          DataGenStaysNone(View(), index + 1, |data|);
          return None;
        }
        seen := o.value;
      }
      var o := ObserveCell(commit, |data|, true, seen);
      if o.None? {
        return None;
      }
      g := Some((o.value + 1) % U64);
    }

    /**
     Persist `blob`. `fault` says where the stores stop; the answer is whether the
     commit record was completed.
     */
    method Save(blob: seq<Byte>, fault: Fault) returns (ok: bool)
      modifies this
      ensures View() == Saved(old(View()), blob, fault)
      ensures ok <==>
        |blob| <= |old(data)| * SHARD_BODY_MAX && FreshGen(old(View())).Some? && !Interrupts(fault, |old(data)|)
    {
      hide FreshGen, Chunk, Nonce;
      if |blob| > |data| * SHARD_BODY_MAX {
        return false;
      }
      var next := FreshGeneration();
      if next.None? {
        return false;
      }
      var g := next.value;
      ghost var before := View();
      for index := 0 to |data|
        invariant |data| == |before.data| && commit == before.commit
        invariant Reached(fault, index) && (index > 0 ==> Ends(fault, index - 1).Completed?)
        invariant View() == SavedShards(before, blob, g, fault, index)
      {
        var outcome := Ends(fault, index);
        data := data[index := Stored(data[index], Seal(applet, index, g, Chunk(blob, index)), outcome)];
        assert View() == SavedShards(before, blob, g, fault, index + 1);
        if !outcome.Completed? || !Reached(fault, index + 1) {
          ShardsStop(before, blob, g, fault, index + 1, |data|);
          return false;
        }
      }
      var outcome := Ends(fault, |data|);
      commit := Stored(commit, Seal(applet, |data|, g, ToLE(|blob|, COMMIT_LEN)), outcome);
      ok := outcome.Completed?;
    }

    /** The total of this generation's commit record, slot by slot. */
    method FindTotal(g: nat) returns (total: Search<nat>)
      ensures total == CommitTotal(View(), g)
    {
      var a := OpenShard(applet, |data|, commit.s0);
      if a.Bad? {
        return Broken;
      }
      if a.Good? && a.generation == g && |a.body| == COMMIT_LEN {
        return Found(FromLE(a.body));
      }
      var b := OpenShard(applet, |data|, commit.s1);
      if b.Bad? {
        return Broken;
      }
      if b.Good? && b.generation == g && |b.body| == COMMIT_LEN {
        return Found(FromLE(b.body));
      }
      return Missing;
    }

    /** The body a shard holds for a generation, slot by slot. */
    method FindShard(g: nat, index: nat) returns (body: Search<seq<Byte>>)
      requires index < |data|
      ensures body == ShardBody(View(), g, index)
    {
      var a := OpenShard(applet, index, data[index].s0);
      if a.Bad? {
        return Broken;
      }
      if a.Good? && a.generation == g {
        return Found(a.body);
      }
      var b := OpenShard(applet, index, data[index].s1);
      if b.Bad? {
        return Broken;
      }
      if b.Good? && b.generation == g {
        return Found(b.body);
      }
      return Missing;
    }

    /** Try one generation: `Empty` when it cannot be assembled, `Failed` on an error. */
    method Assemble(g: nat, room: nat) returns (r: LoadResult)
      ensures r == Assembled(View(), g, room)
      ensures r.Blob? ==> |r.bytes| <= room
    {
      hide ShardBody, CommitTotal;
      var total := FindTotal(g);
      if !total.Found? || total.value > |data| * SHARD_BODY_MAX || room < total.value {
        return Failed;
      }
      var out: seq<Byte> := [];
      for index := 0 to |data|
        invariant |out| <= total.value
        invariant Gathered(View(), g, total.value, index) == Found(out)
      {
        var body := FindShard(g, index);
        if !body.Found? {
          GatherStays(View(), g, total.value, index + 1, |data|);
          return if body.Broken? then Failed else Empty;
        }
        out := out + Take(body.value, total.value - |out|);
      }
      if |out| < total.value {
        return Empty;
      }
      r := Blob(out);
    }

    /** Load the newest complete generation that fits `room` octets. */
    method Load(room: nat) returns (r: LoadResult)
      ensures r == LoadedBlob(View(), room)
      ensures r.Blob? ==> |r.bytes| <= room
    {
      hide Assembled;
      var candidates: seq<nat> := [];
      for slot := 0 to 2
        invariant slot >= 1 ==> !OpenShard(applet, |data|, commit.s0).Bad?
        invariant slot >= 2 ==> !OpenShard(applet, |data|, commit.s1).Bad?
        invariant candidates ==
          (if slot >= 1 && Candidate(View(), commit.s0).Some? then [Candidate(View(), commit.s0).value] else [])
          + (if slot >= 2 && Candidate(View(), commit.s1).Some? then [Candidate(View(), commit.s1).value] else [])
      {
        if OpenShard(applet, |data|, At(commit, slot)).Bad? {
          return Failed;
        }
        var candidate := Candidate(View(), At(commit, slot));
        if candidate.Some? {
          candidates := candidates + [candidate.value];
        }
      }
      if candidates == [] {
        return Empty;
      }
      if |candidates| == 2 && candidates[1] > candidates[0] {
        candidates := [candidates[1], candidates[0]];
      }
      r := Assemble(candidates[0], room);
      if r.Empty? && |candidates| == 2 {
        r := Assemble(candidates[1], room);
      }
      if r.Empty? {
        r := Failed;
      }
    }
  }

  lemma {:induction false} DataGenStaysNone(s: Store, i: nat, k: nat)
    requires i <= k <= |s.data| && DataGen(s, i).None?
    ensures DataGen(s, k).None?
  {
    hide CellGen;
    if i < k { DataGenStaysNone(s, i, k - 1); }
  }

  lemma {:induction false} GatherStays(s: Store, g: nat, total: nat, i: nat, k: nat)
    requires i <= k <= |s.data| && !Gathered(s, g, total, i).Found?
    ensures Gathered(s, g, total, k) == Gathered(s, g, total, i)
  {
    hide ShardBody;
    if i < k { GatherStays(s, g, total, i, k - 1); }
  }

  lemma {:induction false} ShardsStop(s: Store, blob: seq<Byte>, g: nat, f: Fault, i: nat, k: nat)
    requires i <= k <= |s.data| && f.Stop? && f.k < i
    ensures SavedShards(s, blob, g, f, k) == SavedShards(s, blob, g, f, i)
  {
    hide Chunk, Nonce;
    if i < k { ShardsStop(s, blob, g, f, i, k - 1); }
  }
}
