/** CCID framing: message headers, responses, and reassembly of bulk packets into frames. */
module Ccid {
  import opened Wrappers
  import opened Bytes

  const HEADER_LEN: nat := 10

  /** `dwLength` of a header. */
  function Declared(b: seq<Byte>): (n: nat)
    requires |b| >= HEADER_LEN
  {
    FromLE(b[1..5])
  }

  // ----- requests ----------------------------------------------------------------------------

  /** `specific` is the first of the three message-specific octets, `rest` the other two. */
  datatype Header = Header(
    kind: Byte, slot: Byte, sequence: Byte, specific: Byte, rest: (Byte, Byte), payload: seq<Byte>)

  /** A header whose declared length matches the frame. */
  function ParseHeader(frame: seq<Byte>): (h: Option<Header>)
  {
    if |frame| < HEADER_LEN || Declared(frame) + HEADER_LEN != |frame| then None
    else Some(Header(frame[0], frame[5], frame[6], frame[7], (frame[8], frame[9]), frame[HEADER_LEN..]))
  }

  datatype Request =
    | PowerOn
    | PowerOff
    | SlotStatus
    | SetParameters(protocol: Byte, data: seq<Byte>)
    | Parameters
    | DataRate(data: seq<Byte>)
    | XfrBlock(data: seq<Byte>)
    | Escape
    | Abort

  /** The request of a well-formed frame; `None` for a type or a payload the card refuses. */
  function ParseRequest(h: Header): (r: Option<Request>)
  {
    var none := h.payload == [];
    if h.kind == 0x62 && none then Some(PowerOn)
    else if h.kind == 0x63 && none then Some(PowerOff)
    else if h.kind == 0x65 && none then Some(SlotStatus)
    else if h.kind == 0x61 && |h.payload| == 5 then Some(SetParameters(h.specific, h.payload))
    else if (h.kind == 0x6C || h.kind == 0x6D) && none then Some(Parameters)
    else if h.kind == 0x73 && |h.payload| == 8 then Some(DataRate(h.payload))
    else if h.kind == 0x6F then Some(XfrBlock(h.payload))
    else if h.kind == 0x6B then Some(Escape)
    else if h.kind == 0x72 && none then Some(Abort)
    else None
  }

  // ----- responses ---------------------------------------------------------------------------

  datatype Response = Response(kind: Byte, sequence: Byte, status: Byte, error: Byte, specific: Byte, data: seq<Byte>)

  const DATA_BLOCK: Byte := 0x80
  const SLOT_STATUS: Byte := 0x81
  const PARAMETERS: Byte := 0x82
  const DATA_RATE: Byte := 0x84
  const FAILED: Byte := 0x40
  const INACTIVE: Byte := 0x01
  const OCCURRED: Byte := 0x01
  const T0_PARAMETERS: seq<Byte> := [0x11, 0x00, 0x00, 0x0A, 0x00]

  function DataBlock(sequence: Byte, data: seq<Byte>): Response { Response(DATA_BLOCK, sequence, 0, 0, 0, data) }

  function DataBlockFailed(sequence: Byte): Response { Response(DATA_BLOCK, sequence, FAILED, OCCURRED, 0, []) }

  function StatusOf(sequence: Byte, powered: bool): Response
  {
    Response(SLOT_STATUS, sequence, if powered then 0 else INACTIVE, 0, 0, [])
  }

  function StatusFailed(sequence: Byte): Response { Response(SLOT_STATUS, sequence, FAILED + INACTIVE, 0, 0, []) }

  function ParametersOf(sequence: Byte, data: seq<Byte>): Response { Response(PARAMETERS, sequence, 0, 0, 0, data) }

  function ParametersFailed(sequence: Byte): Response { Response(PARAMETERS, sequence, FAILED, 0, 0, []) }

  function Encode(r: Response): (b: seq<Byte>)
    ensures |b| == HEADER_LEN + |r.data|
  {
    [r.kind] + ToLE(|r.data|, 4) + [0, r.sequence, r.status, r.error, r.specific] + r.data
  }

  /** The host reads back from the wire the header and the payload the card meant. */
  lemma ResponseRoundTrip(r: Response)
    requires |r.data| < U32
    ensures ParseHeader(Encode(r)) == Some(Header(r.kind, 0, r.sequence, r.status, (r.error, r.specific), r.data))
  {
    hide ToLE, FromLE;
    var b := Encode(r);
    PowerTable();
    LERoundTrip(|r.data|, 4);
    assert b[1..5] == ToLE(|r.data|, 4);
    assert b[HEADER_LEN..] == r.data;
  }

  // ----- reassembly --------------------------------------------------------------------------

  datatype Scan = More | Overflow | Whole(length: nat)

  /** The frame at the head of the buffered octets, for a buffer of `cap` octets. */
  function NextFrame(b: seq<Byte>, cap: nat): (s: Scan)
    requires cap >= HEADER_LEN
    ensures s.Whole? ==> HEADER_LEN <= s.length <= |b|
  {
    if |b| < HEADER_LEN then More
    else if Declared(b) > cap - HEADER_LEN then Overflow
    else if |b| < HEADER_LEN + Declared(b) then More
    else Whole(HEADER_LEN + Declared(b))
  }

  /** All frames of an unsplit stream, up to an unfinished or an oversized one. */
  function Frames(b: seq<Byte>, cap: nat): (fs: seq<seq<Byte>>)
    requires cap >= HEADER_LEN
    decreases |b|
  {
    var s := NextFrame(b, cap);
    if s.Whole? then [b[..s.length]] + Frames(b[s.length..], cap) else []
  }

  predicate IsFrame(f: seq<Byte>, cap: nat)
    requires cap >= HEADER_LEN
  {
    NextFrame(f, cap) == Whole(|f|)
  }

  function Concat(fs: seq<seq<Byte>>): seq<Byte>
  {
    if fs == [] then [] else Concat(fs[..|fs| - 1]) + fs[|fs| - 1]
  }

  // ----- what a frame is, read off the octets -------------------------------------------------

  /** Ten octets, and as many more as octets 1 to 4 say, little-endian. */
  function Length(b: seq<Byte>): int
    requires |b| >= 10
  {
    10 + (b[1] as int) + 0x100 * (b[2] as int) + 0x1_0000 * (b[3] as int) + 0x100_0000 * (b[4] as int)
  }

  lemma DeclaredIs(b: seq<Byte>)
    requires |b| >= HEADER_LEN
    ensures HEADER_LEN + Declared(b) == Length(b)
  {
    FourOctetsLE(b[1..5]);
  }

  /** Where the fields of a request lie. */
  lemma RequestOctets(f: seq<Byte>)
    ensures ParseHeader(f).Some? <==> |f| >= 10 && Length(f) == |f|
    ensures ParseHeader(f).Some? ==>
      && ParseHeader(f).value.kind == f[0] && ParseHeader(f).value.slot == f[5]
      && ParseHeader(f).value.sequence == f[6] && ParseHeader(f).value.specific == f[7]
      && ParseHeader(f).value.payload == f[10..]
  {
    hide FromLE;
    if |f| >= HEADER_LEN { DeclaredIs(f); }
  }

  /** Where the fields of a response lie; its length field counts the payload. */
  lemma ResponseOctets(r: Response)
    requires |r.data| < U32
    ensures var b := Encode(r);
            && |b| == 10 + |r.data| && Length(b) == |b|
            && b[0] == r.kind && b[5] == 0 && b[6] == r.sequence && b[7] == r.status && b[8] == r.error
            && b[9] == r.specific && b[10..] == r.data
  {
    hide FromLE, ToLE;
    ResponseRoundTrip(r);
    RequestOctets(Encode(r));
  }

  /** What the scan answers, by the octets alone. */
  lemma ScanIff(b: seq<Byte>, cap: nat)
    requires cap >= HEADER_LEN
    ensures NextFrame(b, cap).More? <==> |b| < 10 || (Length(b) <= cap && |b| < Length(b))
    ensures NextFrame(b, cap).Overflow? <==> |b| >= 10 && Length(b) > cap
    ensures NextFrame(b, cap).Whole? <==> |b| >= 10 && Length(b) <= cap && Length(b) <= |b|
    ensures NextFrame(b, cap).Whole? ==> NextFrame(b, cap).length == Length(b)
  {
    hide FromLE;
    if |b| >= HEADER_LEN { DeclaredIs(b); }
  }

  /** A frame is exactly what parses with its declared length, within the buffer. */
  lemma IsFrameIff(f: seq<Byte>, cap: nat)
    requires cap >= HEADER_LEN
    ensures IsFrame(f, cap) <==> ParseHeader(f).Some? && |f| <= cap
    ensures IsFrame(f, cap) <==> |f| >= 10 && Length(f) == |f| <= cap
  {
    hide FromLE;
    ScanIff(f, cap);
    if |f| >= HEADER_LEN { DeclaredIs(f); }
  }

  /** The host's frames, back to back, come out one by one, whatever unfinished part follows. */
  lemma StreamOfFrames(fs: seq<seq<Byte>>, tail: seq<Byte>, cap: nat)
    requires cap >= HEADER_LEN
    requires forall i :: 0 <= i < |fs| ==> |fs[i]| >= 10 && Length(fs[i]) == |fs[i]| <= cap
    requires |tail| < 10 || |tail| < Length(tail)
    ensures Frames(Concat(fs) + tail, cap) == fs
  {
    hide NextFrame;
    forall i | 0 <= i < |fs|
      ensures IsFrame(fs[i], cap)
    {
      IsFrameIff(fs[i], cap);
    }
    ScanIff(tail, cap);
    assert Frames(tail, cap) == [];
    FramesOfConcat(fs, tail, cap);
    assert fs + [] == fs;
  }

  /** Octets that arrive later change neither a whole frame nor an oversized one. */
  lemma NextFrameStable(b: seq<Byte>, more: seq<Byte>, cap: nat)
    requires cap >= HEADER_LEN && !NextFrame(b, cap).More?
    ensures NextFrame(b + more, cap) == NextFrame(b, cap)
  {
    assert (b + more)[1..5] == b[1..5];
  }

  lemma FirstIsFrame(b: seq<Byte>, cap: nat)
    requires cap >= HEADER_LEN && NextFrame(b, cap).Whole?
    ensures IsFrame(b[..NextFrame(b, cap).length], cap)
  {
    var n := NextFrame(b, cap).length;
    assert b[..n][1..5] == b[1..5];
  }

  /** Frames taken off the head one by one, and what is left, are the frames of the stream. */
  lemma {:induction false} FramesOfConcat(fs: seq<seq<Byte>>, b: seq<Byte>, cap: nat)
    requires cap >= HEADER_LEN && forall i :: 0 <= i < |fs| ==> IsFrame(fs[i], cap)
    ensures Frames(Concat(fs) + b, cap) == fs + Frames(b, cap)
    decreases |fs|
  {
    hide NextFrame;
    if fs == [] {
      assert [] + b == b && fs + Frames(b, cap) == Frames(b, cap);
    } else {
      var front, f := fs[..|fs| - 1], fs[|fs| - 1];
      FramesOfConcat(front, f + b, cap);
      assert Concat(fs) + b == Concat(front) + (f + b);
      assert IsFrame(f, cap);
      NextFrameStable(f, b, cap);
      assert (f + b)[..|f|] == f && (f + b)[|f|..] == b;
      assert front + ([f] + Frames(b, cap)) == fs + Frames(b, cap);
    }
  }

  /** The bounded buffer of the assembler, changed in place. */
  class Assembler {
    const data: array<Byte>
    var len: nat

    ghost predicate Valid()
      reads this
    {
      HEADER_LEN <= data.Length && len <= data.Length
    }

    function Contents(): seq<Byte>
      requires len <= data.Length
      reads this, data
    {
      data[..len]
    }

    constructor (cap: nat)
      requires cap >= HEADER_LEN
      ensures Valid() && fresh(data) && data.Length == cap && Contents() == []
    {
      data := new Byte[cap];
      len := 0;
    }

    method Clear()
      requires Valid()
      modifies this
      ensures Valid() && Contents() == []
    {
      len := 0;
    }

    /** Append a packet, or refuse it whole when it does not fit. */
    method Feed(chunk: seq<Byte>) returns (ok: bool)
      requires Valid()
      modifies this, data
      ensures Valid() && ok == (|old(Contents())| + |chunk| <= data.Length)
      ensures Contents() == if ok then old(Contents()) + chunk else old(Contents())
    {
      if len + |chunk| > data.Length {
        return false;
      }
      var i := 0;
      while i < |chunk|
        invariant i <= |chunk| && len == old(len)
        invariant data[..len] == old(Contents())
        invariant data[len..len + i] == chunk[..i]
      {
        data[len + i] := chunk[i];
        i := i + 1;
      }
      assert data[..len + |chunk|] == data[..len] + data[len..len + |chunk|];
      len := len + |chunk|;
      ok := true;
    }

    method Pending() returns (s: Scan)
      requires Valid()
      ensures s == NextFrame(Contents(), data.Length)
    {
      if len < HEADER_LEN {
        return More;
      }
      assert data[..len][1..5] == data[1..5];
      var declared := FromLE(data[1..5]);
      if declared > data.Length - HEADER_LEN {
        return Overflow;
      }
      if len < HEADER_LEN + declared {
        return More;
      }
      return Whole(HEADER_LEN + declared);
    }

    /** Drop the first `count` octets, moving the rest to the front. */
    method Consume(count: nat)
      requires Valid()
      modifies this, data
      ensures Valid()
      ensures Contents() == if count <= |old(Contents())| then old(Contents())[count..] else []
    {
      if count >= len {
        len := 0;
        return;
      }
      var left := len - count;
      var i := 0;
      while i < left
        invariant i <= left && len == old(len)
        invariant forall k :: 0 <= k < i ==> data[k] == old(data[count + k])
        invariant forall k :: i <= k < len ==> data[k] == old(data[k])
      {
        data[i] := data[count + i];
        i := i + 1;
      }
      len := left;
      assert data[..left] == old(Contents())[count..];
    }
  }
}
