/**
 The sealed PIV store: one metadata cell holding six small records as an encoded map,
 and one cell per data object. It refines a plain map from record number to octets,
 whatever happens to the stores underneath.
 */
module SealedPivStore {
  import opened Wrappers
  import opened Bytes
  import opened SlotStore
  import opened SealedBlob
  import opened SealedBlobSafety

  const APPLET: nat := 1
  const MAX_RECORD: nat := 1536
  /** Room of one sealed record once nonce, tag, generation and flag are taken off. */
  const CELL_BODY_MAX: nat := 2267
  const OBJECT_BASE: nat := 30
  const OBJECTS: nat := 10
  const ENTRIES: nat := 6

  // ----- the metadata map ----------------------------------------------------------------

  type Entry = Option<seq<Byte>>

  predicate EntriesOk(es: seq<Entry>)
  {
    forall i :: 0 <= i < |es| ==> es[i].Some? ==> |es[i].value| <= MAX_RECORD
  }

  /** A presence octet, then a little-endian length and the record. */
  function EncodeEntry(e: Entry): seq<Byte>
  {
    match e
    case None => [0]
    case Some(record) => [1] + ToLE(|record|, 2) + record
  }

  function Encode(es: seq<Entry>): seq<Byte>
  {
    if es == [] then [] else EncodeEntry(es[0]) + Encode(es[1..])
  }

  /** One entry off the front: the entry and the octets after it. */
  function DecodeEntry(body: seq<Byte>): (r: Option<(Entry, seq<Byte>)>)
    ensures r.Some? ==> |r.value.1| < |body|
    ensures r.Some? && r.value.0.Some? ==> |r.value.0.value| <= MAX_RECORD
  {
    if body == [] then None
    else if body[0] == 0 then Some((None, body[1..]))
    else if body[0] != 1 || |body| < 3 then None
    else
      var len := FromLE(body[1..3]);
      if len > MAX_RECORD || |body| < 3 + len then None
      else Some((Some(body[3..3 + len]), body[3 + len..]))
  }

  /** `n` entries that use the body up exactly. */
  function Decode(body: seq<Byte>, n: nat): (es: Option<seq<Entry>>)
    ensures es.Some? ==> |es.value| == n && EntriesOk(es.value)
    decreases n
  {
    if n == 0 then (if body == [] then Some([]) else None)
    else
      match DecodeEntry(body)
      case None => None
      case Some((e, rest)) =>
        match Decode(rest, n - 1)
        case None => None
        case Some(es) => Some([e] + es)
  }

  lemma DecodeEncodedEntry(e: Entry, rest: seq<Byte>)
    requires e.Some? ==> |e.value| <= MAX_RECORD
    ensures DecodeEntry(EncodeEntry(e) + rest) == Some((e, rest))
  {
    var body := EncodeEntry(e) + rest;
    match e {
      case None => assert body[1..] == rest;
      case Some(record) =>
        PowerTable();
        LERoundTrip(|record|, 2);
        assert body[1..3] == ToLE(|record|, 2);
        assert body[3..3 + |record|] == record && body[3 + |record|..] == rest;
    }
  }

  /** Decoding inverts encoding. */
  lemma {:induction false} DecodeInvertsEncode(es: seq<Entry>)
    requires EntriesOk(es)
    ensures Decode(Encode(es), |es|) == Some(es)
    decreases |es|
  {
    hide EncodeEntry, DecodeEntry;
    if es != [] {
      DecodeEncodedEntry(es[0], Encode(es[1..]));
      DecodeInvertsEncode(es[1..]);
      assert [es[0]] + es[1..] == es;
    }
  }

  lemma EncodeDecodedEntry(body: seq<Byte>)
    requires DecodeEntry(body).Some?
    ensures EncodeEntry(DecodeEntry(body).value.0) + DecodeEntry(body).value.1 == body
  {
    var (e, rest) := DecodeEntry(body).value;
    if e.Some? {
      TwoOctets(body[1..3]);
      assert body == [1] + body[1..3] + body[3..3 + |e.value|] + rest;
    }
  }

  lemma TwoOctets(s: seq<Byte>)
    requires |s| == 2
    ensures ToLE(FromLE(s), 2) == s
  {
    assert FromLE(s[1..]) == s[1];
    var lo: int, hi: int := s[0], s[1];
    assert FromLE(s) == lo + 256 * hi;
    assert ToLE(FromLE(s), 2) == [FromLE(s) % 256] + ToLE(FromLE(s) / 256, 1);
    assert ToLE(s[1], 1) == [s[1] % 256] + ToLE(s[1] / 256, 0);
  }

  /** And encoding inverts decoding: a body has at most one reading. */
  lemma {:induction false} EncodeInvertsDecode(body: seq<Byte>, n: nat)
    requires Decode(body, n).Some?
    ensures Encode(Decode(body, n).value) == body
    decreases n
  {
    hide EncodeEntry, DecodeEntry;
    if n > 0 {
      EncodeDecodedEntry(body);
      EncodeInvertsDecode(DecodeEntry(body).value.1, n - 1);
      var es := Decode(body, n).value;
      assert es[1..] == Decode(DecodeEntry(body).value.1, n - 1).value;
    }
  }

  /** What is decoded so far, in front of what the rest decodes to. */
  function Prepend(front: seq<Entry>, tail: Option<seq<Entry>>): Option<seq<Entry>>
  {
    match tail
    case None => None
    case Some(es) => Some(front + es)
  }

  lemma DecodeOne(front: seq<Entry>, rest: seq<Byte>, n: nat)
    requires n > 0 && DecodeEntry(rest).Some?
    ensures Prepend(front, Decode(rest, n))
      == Prepend(front + [DecodeEntry(rest).value.0], Decode(DecodeEntry(rest).value.1, n - 1))
  {
    hide DecodeEntry;
    var (e, left) := DecodeEntry(rest).value;
    var tail := Decode(left, n - 1);
    if tail.Some? {
      assert front + ([e] + tail.value) == (front + [e]) + tail.value;
    }
  }

  /** The cursor loop of the decoder. */
  method DecodeMap(body: seq<Byte>, n: nat) returns (es: Option<seq<Entry>>)
    ensures es == Decode(body, n)
  {
    hide DecodeEntry;
    var entries, rest := [], body;
    assert Decode(body, n).Some? ==> [] + Decode(body, n).value == Decode(body, n).value;
    for i := 0 to n
      invariant Decode(body, n) == Prepend(entries, Decode(rest, n - i))
    {
      var one := DecodeEntry(rest);
      if one.None? {
        return None;
      }
      DecodeOne(entries, rest, n - i);
      entries, rest := entries + [one.value.0], one.value.1;
    }
    if rest != [] {
      return None;
    }
    assert entries + [] == entries;
    es := Some(entries);
  }

  // ----- one sealed cell --------------------------------------------------------------------

  datatype CellResult = Corrupt | Vacant | Holding(body: seq<Byte>)

  /** A record opens only with its presence octet. */
  predicate Opens(shard: nat, slot: Slot<Payload>)
  {
    var o := OpenShard(APPLET, shard, slot);
    !o.Bad? && (o.Good? ==> |o.body| > 0)
  }

  /** What a load of the newest record yields; a tombstone reads as vacant. */
  function CellLoad(shard: nat, c: Cell<Payload>): CellResult
  {
    match Newest(c)
    case None => Vacant
    case Some(best) =>
      if !Opens(shard, At(c, best)) then Corrupt
      else
        match OpenShard(APPLET, shard, At(c, best))
        case Good(_, body) => if body[0] == 0 then Vacant else Holding(body[1..])
        case _ => Vacant
  }

  function CellFresh(shard: nat, c: Cell<Payload>): Option<nat>
  {
    if !Opens(shard, c.s0) || !Opens(shard, c.s1) then None
    else
      var seen := CellGen(APPLET, shard, false, c);
      if seen.None? then None else Some((seen.value + 1) % U64)
  }

  /** Store a record (or a tombstone); the answer is whether the store completed. */
  function CellStore(shard: nat, c: Cell<Payload>, record: Entry, o: Outcome): (r: (Cell<Payload>, bool))
  {
    var g := CellFresh(shard, c);
    var plain := match record case Some(body) => [1] + body case None => [0];
    if |plain| > 1 + CELL_BODY_MAX || g.None? then (c, false)
    else (Stored(c, Seal(APPLET, shard, g.value, plain), o), o.Completed?)
  }

  predicate CellOk(shard: nat, c: Cell<Payload>)
  {
    CellWell(APPLET, shard, false, c) && Opens(shard, c.s0) && Opens(shard, c.s1)
  }

  ghost predicate CellRoom(c: Cell<Payload>)
  {
    Headroom(c) && TopGen(c) + 1 < U64
  }

  function AsEntry(r: CellResult): Entry { if r.Holding? then Some(r.body) else None }

  /** A cell store is atomic, raises the generation, and is refused exactly when it does not fit or stops. */
  lemma CellStoreIsAtomic(shard: nat, c: Cell<Payload>, record: Entry, o: Outcome)
    requires CellOk(shard, c) && CellRoom(c)
    ensures
      var (d, ok) := CellStore(shard, c, record, o);
      && CellOk(shard, d)
      && (ok <==> o.Completed? && (record.Some? ==> |record.value| <= CELL_BODY_MAX))
      && CellLoad(shard, d) == (if !ok then CellLoad(shard, c)
                                else if record.Some? then Holding(record.value) else Vacant)
      && (ok ==> TopGen(d) > TopGen(c)) && (!ok ==> TopGen(d) == TopGen(c))
  {
    hide Nonce, Stored, Newest;
    CellGenIs(APPLET, shard, false, c);
    var g := CellFresh(shard, c).value;
    var plain := match record case Some(body) => [1] + body case None => [0];
    if |plain| <= 1 + CELL_BODY_MAX {
      CellStep(APPLET, shard, false, c, g, plain, o);
      StoreIsAtomic(c, Seal(APPLET, shard, g, plain), o);
      NewestAfter(shard, c, g, plain, o);
    }
  }

  lemma NewestAfter(shard: nat, c: Cell<Payload>, g: nat, plain: seq<Byte>, o: Outcome)
    requires CellOk(shard, c) && CellRoom(c) && |plain| > 0
    ensures
      var d := Stored(c, Seal(APPLET, shard, g, plain), o);
      && Opens(shard, d.s0) && Opens(shard, d.s1)
      && (o.Completed? ==> CellLoad(shard, d) == if plain[0] == 0 then Vacant else Holding(plain[1..]))
      && (!o.Completed? ==> CellLoad(shard, d) == CellLoad(shard, c))
  {
    hide Nonce;
  }

  /** The next store of a cell takes a later generation if and only if this one was accepted. */
  lemma CellGenerationAdvancesIff(shard: nat, c: Cell<Payload>, record: Entry, o: Outcome)
    requires CellOk(shard, c) && CellRoom(c) && CellRoom(CellStore(shard, c, record, o).0)
    ensures var (d, ok) := CellStore(shard, c, record, o);
            && CellFresh(shard, c).Some? && CellFresh(shard, d).Some?
            && (CellFresh(shard, d).value > CellFresh(shard, c).value <==> ok)
            && (!ok ==> CellFresh(shard, d) == CellFresh(shard, c))
  {
    var (d, ok) := CellStore(shard, c, record, o);
    hide CellStore, CellLoad, CellGen, TopGen, CellWell, Opens, Headroom;
    CellStoreIsAtomic(shard, c, record, o);
    CellGenIs(APPLET, shard, false, c);
    CellGenIs(APPLET, shard, false, d);
  }

  /** One attempt to store a record or a tombstone, and how far it got. */
  datatype Write = Write(record: Entry, outcome: Outcome)

  ghost predicate CellRunRoom(shard: nat, c: Cell<Payload>, writes: seq<Write>)
    decreases |writes|
  {
    CellRoom(c) &&
    (writes != [] ==> CellRunRoom(shard, CellStore(shard, c, writes[0].record, writes[0].outcome).0, writes[1..]))
  }

  /** The generations a run completes into a cell, in order. */
  function CellCompletions(shard: nat, c: Cell<Payload>, writes: seq<Write>): seq<nat>
    decreases |writes|
  {
    if writes == [] then []
    else
      var (d, ok) := CellStore(shard, c, writes[0].record, writes[0].outcome);
      var rest := CellCompletions(shard, d, writes[1..]);
      if ok && CellFresh(shard, c).Some? then [CellFresh(shard, c).value] + rest else rest
  }

  lemma CompletedGeneration(shard: nat, c: Cell<Payload>, w: Write)
    requires CellOk(shard, c) && CellRoom(c) && CellStore(shard, c, w.record, w.outcome).1
    ensures CellFresh(shard, c) == Some(TopGen(CellStore(shard, c, w.record, w.outcome).0))
    ensures TopGen(c) < CellFresh(shard, c).value < U64
  {
    hide Nonce, Stored, Newest;
    CellGenIs(APPLET, shard, false, c);
    var plain := match w.record case Some(body) => [1] + body case None => [0];
    CellStep(APPLET, shard, false, c, CellFresh(shard, c).value, plain, w.outcome);
  }

  /** Over any run of stores, erasures and power cuts, the completed generations of a cell rise. */
  lemma {:induction false} CellGenerationsIncrease(shard: nat, c: Cell<Payload>, writes: seq<Write>)
    requires CellOk(shard, c) && CellRunRoom(shard, c, writes)
    ensures Rising(CellCompletions(shard, c, writes), TopGen(c))
    decreases |writes|
  {
    hide CellOk, CellRoom, CellStore, CellFresh, TopGen, CellLoad;
    if writes != [] {
      var w := writes[0];
      var (d, ok) := CellStore(shard, c, w.record, w.outcome);
      CellStoreIsAtomic(shard, c, w.record, w.outcome);
      CellGenerationsIncrease(shard, d, writes[1..]);
      if ok {
        CompletedGeneration(shard, c, w);
        RisingCons(CellFresh(shard, c).value, CellCompletions(shard, d, writes[1..]), TopGen(c));
      }
    }
  }

  // ----- the store -------------------------------------------------------------------------------

  datatype Cells = Cells(meta: Cell<Payload>, objects: seq<Cell<Payload>>)

  /** PIN, PUK, management key and the three key entries, in map order. */
  function MetaIndex(record: nat): (i: Option<nat>)
    ensures i.Some? ==> i.value < ENTRIES
    ensures i.Some? <==> record in {1, 2, 3, 10, 11, 12}
  {
    if record == 1 then Some(0) else if record == 2 then Some(1) else if record == 3 then Some(2)
    else if record == 10 then Some(3) else if record == 11 then Some(4) else if record == 12 then Some(5)
    else None
  }

  /** Object records `30 .. 40`. */
  function ObjectIndex(record: nat): (i: Option<nat>)
    ensures i.Some? ==> i.value < OBJECTS
    ensures i.Some? <==> 30 <= record < 40
  {
    if OBJECT_BASE <= record < OBJECT_BASE + OBJECTS then Some(record - OBJECT_BASE) else None
  }

  /** The decoded metadata map; `None` is an error, a vacant cell is an empty map. */
  function LoadMeta(s: Cells): (es: Option<seq<Entry>>)
    ensures es.Some? ==> |es.value| == ENTRIES && EntriesOk(es.value)
  {
    match CellLoad(0, s.meta)
    case Corrupt => None
    case Vacant => Some([None, None, None, None, None, None])
    case Holding(body) => Decode(body, ENTRIES)
  }

  function Read(s: Cells, record: nat): Entry
    requires |s.objects| == OBJECTS
  {
    if MetaIndex(record).Some? then
      var es := LoadMeta(s);
      if es.None? then None else es.value[MetaIndex(record).value]
    else if ObjectIndex(record).Some? then
      var i := ObjectIndex(record).value;
      var e := AsEntry(CellLoad(1 + i, s.objects[i]));
      if e.Some? && |e.value| > MAX_RECORD then None else e
    else None
  }

  /** Replace (`Some`) or erase (`None`) one record; exactly one cell is touched. */
  function Update(s: Cells, record: nat, value: Entry, o: Outcome): (r: (Cells, bool))
    requires |s.objects| == OBJECTS
    ensures |r.0.objects| == OBJECTS
  {
    if value.Some? && |value.value| > MAX_RECORD then (s, false)
    else if MetaIndex(record).Some? then
      var es := LoadMeta(s);
      if es.None? then (s, false)
      else
        var (c, ok) := CellStore(0, s.meta, Some(Encode(es.value[MetaIndex(record).value := value])), o);
        (s.(meta := c), ok)
    else if ObjectIndex(record).Some? then
      var i := ObjectIndex(record).value;
      var (c, ok) := CellStore(1 + i, s.objects[i], value, o);
      (s.(objects := s.objects[i := c]), ok)
    else (s, false)
  }

  ghost predicate StoreOk(s: Cells)
  {
    && |s.objects| == OBJECTS && CellOk(0, s.meta) && LoadMeta(s).Some?
    && forall i :: 0 <= i < OBJECTS ==> CellOk(1 + i, s.objects[i]) && ObjectFits(1 + i, s.objects[i])
  }

  predicate ObjectFits(shard: nat, c: Cell<Payload>)
  {
    CellLoad(shard, c).Holding? ==> |CellLoad(shard, c).body| <= MAX_RECORD
  }

  ghost predicate StoreRoom(s: Cells)
  {
    CellRoom(s.meta) && forall i :: 0 <= i < |s.objects| ==> CellRoom(s.objects[i])
  }

  /** The room an accepted metadata update needs. */
  predicate MetaFits(s: Cells, record: nat, value: Entry)
  {
    MetaIndex(record).Some? && LoadMeta(s).Some? ==>
      |Encode(LoadMeta(s).value[MetaIndex(record).value := value])| <= CELL_BODY_MAX
  }

  /** When an update goes through: a known record, small enough, that fits its cell, on a store that completes. */
  predicate Accepts(s: Cells, record: nat, value: Entry, o: Outcome)
  {
    && o.Completed? && (MetaIndex(record).Some? || ObjectIndex(record).Some?)
    && (value.Some? ==> |value.value| <= MAX_RECORD) && MetaFits(s, record, value)
  }

  lemma MetaUpdate(s: Cells, record: nat, value: Entry, o: Outcome)
    requires StoreOk(s) && StoreRoom(s) && MetaIndex(record).Some?
    requires value.Some? ==> |value.value| <= MAX_RECORD
    ensures
      var (t, ok) := Update(s, record, value, o);
      && t.objects == s.objects && CellOk(0, t.meta)
      && (ok <==> o.Completed? && MetaFits(s, record, value))
      && LoadMeta(t) == if ok then Some(LoadMeta(s).value[MetaIndex(record).value := value]) else LoadMeta(s)
  {
    hide CellOk, CellStore, CellLoad, CellRoom;
    var es := LoadMeta(s).value[MetaIndex(record).value := value];
    CellStoreIsAtomic(0, s.meta, Some(Encode(es)), o);
    assert EntriesOk(es);
    DecodeInvertsEncode(es);
  }

  /**
   The store is a map: an update answers true exactly when the store completes and the
   record fits, then changes exactly that record; a refused one, whatever it left on the
   flash, changes none.
   */
  lemma UpdateRefinesMap(s: Cells, record: nat, value: Entry, o: Outcome)
    requires StoreOk(s) && StoreRoom(s)
    ensures
      var (t, ok) := Update(s, record, value, o);
      && StoreOk(t)
      && (forall r: nat :: Read(t, r) == if ok && r == record then value else Read(s, r))
      && (ok <==> Accepts(s, record, value, o))
  {
    hide CellOk, CellStore, CellLoad, CellRoom, Encode, Decode;
    if value.Some? && |value.value| > MAX_RECORD {
    } else if MetaIndex(record).Some? {
      MetaUpdate(s, record, value, o);
      MetaIndexInjective();
    } else if ObjectIndex(record).Some? {
      var i := ObjectIndex(record).value;
      CellStoreIsAtomic(1 + i, s.objects[i], value, o);
      ObjectLoads(s, record, value, o);
    }
  }

  lemma MetaIndexInjective()
    ensures forall r: nat, q: nat :: MetaIndex(r).Some? && MetaIndex(r) == MetaIndex(q) ==> r == q
  {
  }

  lemma ObjectLoads(s: Cells, record: nat, value: Entry, o: Outcome)
    requires StoreOk(s) && StoreRoom(s) && MetaIndex(record).None? && ObjectIndex(record).Some?
    requires value.Some? ==> |value.value| <= MAX_RECORD
    ensures
      var (t, ok) := Update(s, record, value, o);
      && t.meta == s.meta
      && (forall i :: 0 <= i < OBJECTS && i != ObjectIndex(record).value ==> t.objects[i] == s.objects[i])
      && (forall i :: 0 <= i < OBJECTS ==> ObjectFits(1 + i, t.objects[i]))
      && Read(t, record) == (if ok then value else Read(s, record))
  {
    hide CellOk, CellStore, CellLoad, CellRoom;
    var i := ObjectIndex(record).value;
    CellStoreIsAtomic(1 + i, s.objects[i], value, o);
  }

  /** The store as the applet calls it; `o` is how the one cell store it makes ends. */
  class PivRecords {
    var meta: Cell<Payload>
    var objects: seq<Cell<Payload>>

    ghost predicate Valid()
      reads this
    {
      StoreOk(View())
    }

    function View(): Cells
      reads this
    {
      Cells(meta, objects)
    }

    constructor ()
      ensures Valid() && forall r: nat :: Read(View(), r) == None
    {
      meta, objects := Blank(), seq(OBJECTS, i => Blank());
    }

    /** Read a record into a buffer of `room` octets. */
    method ReadRecord(record: nat, room: nat) returns (value: Entry)
      requires Valid()
      ensures value ==
        if Read(View(), record).Some? && |Read(View(), record).value| > room then None else Read(View(), record)
    {
      if MetaIndex(record).Some? {
        var body := CellLoad(0, meta);
        if body.Corrupt? || body.Vacant? {
          return None;
        }
        var es := DecodeMap(body.body, ENTRIES);
        value := es.value[MetaIndex(record).value];
      } else if ObjectIndex(record).None? {
        return None;
      } else {
        var i := ObjectIndex(record).value;
        value := AsEntry(CellLoad(1 + i, objects[i]));
      }
      if value.Some? && |value.value| > room {
        value := None;
      }
    }

    method WriteRecord(record: nat, data: seq<Byte>, o: Outcome) returns (ok: bool)
      requires Valid() && StoreRoom(View())
      modifies this
      ensures Valid()
      ensures forall r: nat :: Read(View(), r) == if ok && r == record then Some(data) else old(Read(View(), r))
      ensures ok <==> Accepts(old(View()), record, Some(data), o)
    {
      hide Read, CellOk, Update;
      UpdateRefinesMap(View(), record, Some(data), o);
      var (t, done) := Update(View(), record, Some(data), o);
      meta, objects, ok := t.meta, t.objects, done;
    }

    method EraseRecord(record: nat, o: Outcome) returns (ok: bool)
      requires Valid() && StoreRoom(View())
      modifies this
      ensures Valid()
      ensures forall r: nat :: Read(View(), r) == if ok && r == record then None else old(Read(View(), r))
      ensures ok <==> Accepts(old(View()), record, None, o)
    {
      hide Read, CellOk, Update;
      UpdateRefinesMap(View(), record, None, o);
      var (t, done) := Update(View(), record, None, o);
      meta, objects, ok := t.meta, t.objects, done;
    }
  }
}
