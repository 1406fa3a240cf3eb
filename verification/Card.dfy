/**
 The card session: packets in, frames handled one at a time, a frame that needs the
 user's presence held until it is resolved. The router behind it is any deterministic
 machine; its entropy and its store's answers are part of its state.
 */
module Card {
  import opened Wrappers
  import opened Bytes
  import opened Ccid

  const ATR: seq<Byte> := [0x3B, 0x00]

  /** What the router answers to a command: data and status, or "touch first". */
  datatype Verdict = Data(bytes: seq<Byte>) | Presence

  datatype Back<!R> = Back(
    command: (R, seq<Byte>) -> (R, Verdict),
    finish: (R, bool) -> (R, seq<Byte>),
    reset: R -> R)

  datatype Session<R> = Session(router: R, powered: bool)

  datatype Handled = Reply(response: Response) | Hold(sequence: Byte)

  datatype Card<R> = Card(buffer: seq<Byte>, session: Session<R>, waiting: Option<Byte>)

  /** What a call produced; `Failed` is an error the caller sees. */
  datatype Outcome = Nothing | Answer(response: Response) | Ask | Failed

  /** A packet, a poll or a resolved presence with that much room for the answer, or a reset. */
  datatype Event = Feed(chunk: seq<Byte>) | Poll(room: nat) | Resolve(confirmed: bool, room: nat) | Reset

  // ----- one frame ---------------------------------------------------------------------------

  function HandleRequest<R>(back: Back<R>, s: Session<R>, sequence: Byte, r: Request): (Session<R>, Handled)
  {
    match r
    case PowerOn => (Session(back.reset(s.router), true), Reply(DataBlock(sequence, ATR)))
    case PowerOff => (Session(back.reset(s.router), false), Reply(StatusOf(sequence, false)))
    case SlotStatus => (s, Reply(StatusOf(sequence, s.powered)))
    case SetParameters(protocol, data) =>
      (s, Reply(if protocol == 0 then ParametersOf(sequence, data) else ParametersFailed(sequence)))
    case Parameters => (s, Reply(ParametersOf(sequence, T0_PARAMETERS)))
    case DataRate(data) => (s, Reply(Response(DATA_RATE, sequence, 0, 0, 0, data)))
    case XfrBlock(data) =>
      if !s.powered then (s, Reply(DataBlockFailed(sequence)))
      else
        var (router, verdict) := back.command(s.router, data);
        (s.(router := router), if verdict.Presence? then Hold(sequence) else Reply(DataBlock(sequence, verdict.bytes)))
    case Escape => (s, Reply(DataBlockFailed(sequence)))
    case Abort => (s.(router := back.reset(s.router)), Reply(StatusOf(sequence, s.powered)))
  }

  /** `bSeq` of a frame. */
  function SequenceOf(frame: seq<Byte>): Byte { if |frame| > 6 then frame[6] else 0 }

  function HandleFrame<R>(back: Back<R>, s: Session<R>, frame: seq<Byte>): (Session<R>, Handled)
  {
    var sequence := SequenceOf(frame);
    match ParseHeader(frame)
    case None => (s, Reply(StatusFailed(sequence)))
    case Some(h) =>
      match ParseRequest(h)
      case None => (s, Reply(StatusFailed(sequence)))
      case Some(r) => if h.slot != 0 then (s, Reply(StatusFailed(sequence))) else HandleRequest(back, s, sequence, r)
  }

  // ----- what a frame does, read off its octets -----------------------------------------------

  /** A frame with its declared length, for the one slot there is. */
  predicate Addressed(f: seq<Byte>) { |f| >= 10 && Length(f) == |f| && f[5] == 0 }

  /** A frame without payload. */
  predicate Bare(f: seq<Byte>, kind: Byte) { Addressed(f) && |f| == 10 && f[0] == kind }

  /** Only power-on and power-off change the power; they and an abort reset the router. */
  lemma PowerFrames<R>(back: Back<R>, s: Session<R>, f: seq<Byte>)
    ensures var s' := HandleFrame(back, s, f).0;
            && s'.powered == (Bare(f, 0x62) || (s.powered && !Bare(f, 0x63)))
            && (Bare(f, 0x62) || Bare(f, 0x63) || Bare(f, 0x72) ==> s'.router == back.reset(s.router))
  {
    RequestOctets(f);
    hide FromLE;
  }

  /** A block reaches the router if the card is powered, and nothing else does. */
  lemma BlockFrames<R>(back: Back<R>, s: Session<R>, f: seq<Byte>)
    ensures var (s', handled) := HandleFrame(back, s, f);
            if Addressed(f) && f[0] == 0x6F then
              if s.powered then
                var (router, verdict) := back.command(s.router, f[10..]);
                && s'.router == router
                && (verdict.Presence? ==> handled == Hold(f[6]))
                && (verdict.Data? ==> handled == Reply(Response(0x80, f[6], 0, 0, 0, verdict.bytes)))
              else s' == s && handled == Reply(Response(0x80, f[6], 0x40, 1, 0, []))
            else
              && handled.Reply?
              && (s'.router == s.router || s'.router == back.reset(s.router))
  {
    RequestOctets(f);
    hide FromLE;
    if Addressed(f) && f[0] == 0x6F {
      assert ParseRequest(ParseHeader(f).value) == Some(XfrBlock(f[10..]));
    }
  }

  /** The answers of the other frames, by their first octet. */
  lemma OtherFrames<R>(back: Back<R>, s: Session<R>, f: seq<Byte>)
    ensures var r := HandleFrame(back, s, f).1;
            var off: Byte := if s.powered then 0 else 1;
            && (Bare(f, 0x62) ==> r == Reply(Response(0x80, f[6], 0, 0, 0, [0x3B, 0x00])))
            && (Bare(f, 0x63) ==> r == Reply(Response(0x81, f[6], 1, 0, 0, [])))
            && (Bare(f, 0x65) || Bare(f, 0x72) ==> r == Reply(Response(0x81, f[6], off, 0, 0, [])))
            && (Bare(f, 0x6C) || Bare(f, 0x6D) ==>
                  r == Reply(Response(0x82, f[6], 0, 0, 0, [0x11, 0x00, 0x00, 0x0A, 0x00])))
            && (Addressed(f) && f[0] == 0x61 && |f| == 15 ==>
                  r == Reply(if f[7] == 0 then Response(0x82, f[6], 0, 0, 0, f[10..])
                             else Response(0x82, f[6], 0x40, 0, 0, [])))
            && (Addressed(f) && f[0] == 0x73 && |f| == 18 ==> r == Reply(Response(0x84, f[6], 0, 0, 0, f[10..])))
            && (Addressed(f) && f[0] == 0x6B ==> r == Reply(Response(0x80, f[6], 0x40, 1, 0, [])))
            && (!Addressed(f) ==> HandleFrame(back, s, f) == (s, Reply(Response(0x81, SequenceOf(f), 0x41, 0, 0, []))))
  {
    RequestOctets(f);
    hide FromLE;
  }

  // ----- the machine -------------------------------------------------------------------------

  /** An answer, or an error when it does not fit the caller's buffer. */
  function Fitted(r: Response, room: nat): Outcome { if |Encode(r)| <= room then Answer(r) else Failed }

  function Next<R>(back: Back<R>, cap: nat, c: Card<R>, e: Event): (Card<R>, Outcome)
    requires cap >= HEADER_LEN
  {
    match e
    case Feed(chunk) =>
      if |c.buffer| + |chunk| > cap then (c, Failed) else (c.(buffer := c.buffer + chunk), Nothing)
    case Poll(room) =>
      if c.waiting.Some? then (c, Nothing)
      else
        (match NextFrame(c.buffer, cap)
         case More => (c, Nothing)
         case Overflow => (c, Failed)
         case Whole(n) =>
           var (session, handled) := HandleFrame(back, c.session, c.buffer[..n]);
           match handled
           case Reply(r) => (Card(c.buffer[n..], session, None), Fitted(r, room))
           case Hold(sequence) => (Card(c.buffer[n..], session, Some(sequence)), Ask))
    case Resolve(confirmed, room) =>
      if c.waiting.None? then (c, Nothing)
      else
        var (router, bytes) := back.finish(c.session.router, confirmed);
        (Card(c.buffer, c.session.(router := router), None), Fitted(DataBlock(c.waiting.value, bytes), room))
    case Reset => (Card([], Session(back.reset(c.session.router), false), None), Nothing)
  }

  // ----- what the card should do: one frame after the other, no packets, no buffer -----------

  /** `left` are presence decisions nothing asked for; `handled` counts the frames taken. */
  datatype Trace<R> = Trace(
    session: Session<R>, answers: seq<Response>, waiting: Option<Byte>, left: seq<bool>, handled: nat)

  function Serve<R>(back: Back<R>, s: Session<R>, frames: seq<seq<Byte>>, decisions: seq<bool>): Trace<R>
    decreases |frames|
  {
    if frames == [] then Trace(s, [], None, decisions, 0)
    else
      var (s1, handled) := HandleFrame(back, s, frames[0]);
      match handled
      case Reply(r) => Prepend(r, Serve(back, s1, frames[1..], decisions))
      case Hold(sequence) =>
        if decisions == [] then Trace(s1, [], Some(sequence), [], 1)
        else
          var (router, bytes) := back.finish(s1.router, decisions[0]);
          Prepend(DataBlock(sequence, bytes), Serve(back, s1.(router := router), frames[1..], decisions[1..]))
  }

  function Prepend<R>(r: Response, t: Trace<R>): Trace<R>
  {
    t.(answers := [r] + t.answers, handled := t.handled + 1)
  }

  /** The trace after one more frame, when none is held. */
  function Extended<R>(back: Back<R>, t: Trace<R>, frame: seq<Byte>): Trace<R>
  {
    var (s, handled) := HandleFrame(back, t.session, frame);
    match handled
    case Reply(r) => Trace(s, t.answers + [r], None, [], t.handled + 1)
    case Hold(sequence) => Trace(s, t.answers, Some(sequence), [], t.handled + 1)
  }

  /** The trace after the held frame is resolved. */
  function Resolved<R>(back: Back<R>, t: Trace<R>, confirmed: bool): Trace<R>
    requires t.waiting.Some?
  {
    var (router, bytes) := back.finish(t.session.router, confirmed);
    Trace(t.session.(router := router), t.answers + [DataBlock(t.waiting.value, bytes)], None, [], t.handled)
  }

  lemma {:induction false} ServeFrame<R>(
    back: Back<R>, s: Session<R>, frames: seq<seq<Byte>>, decisions: seq<bool>, f: seq<Byte>)
    requires Serve(back, s, frames, decisions).waiting.None? && Serve(back, s, frames, decisions).left == []
    ensures Serve(back, s, frames + [f], decisions) == Extended(back, Serve(back, s, frames, decisions), f)
    decreases |frames|
  {
    hide HandleFrame;
    var all := frames + [f];
    if frames == [] {
      assert all[0] == f && all[1..] == [];
    } else {
      assert all[0] == frames[0] && all[1..] == frames[1..] + [f];
      var (s1, handled) := HandleFrame(back, s, frames[0]);
      match handled {
        case Reply(r) =>
          ServeFrame(back, s1, frames[1..], decisions, f);
          PrependExtended(back, r, Serve(back, s1, frames[1..], decisions), f);
        case Hold(sequence) =>
          var (router, bytes) := back.finish(s1.router, decisions[0]);
          var s2 := s1.(router := router);
          ServeFrame(back, s2, frames[1..], decisions[1..], f);
          PrependExtended(back, DataBlock(sequence, bytes), Serve(back, s2, frames[1..], decisions[1..]), f);
      }
    }
  }

  lemma PrependExtended<R>(back: Back<R>, r: Response, t: Trace<R>, f: seq<Byte>)
    ensures Extended(back, Prepend(r, t), f) == Prepend(r, Extended(back, t, f))
  {
    hide HandleFrame;
    var (s, handled) := HandleFrame(back, t.session, f);
    if handled.Reply? {
      assert ([r] + t.answers) + [handled.response] == [r] + (t.answers + [handled.response]);
    }
  }

  lemma {:induction false} ServeDecision<R>(
    back: Back<R>, s: Session<R>, frames: seq<seq<Byte>>, decisions: seq<bool>, d: bool)
    requires Serve(back, s, frames, decisions).waiting.Some? && Serve(back, s, frames, decisions).handled == |frames|
    ensures Serve(back, s, frames, decisions + [d]) == Resolved(back, Serve(back, s, frames, decisions), d)
    decreases |frames|
  {
    hide HandleFrame;
    if frames != [] {
      var all := decisions + [d];
      var (s1, handled) := HandleFrame(back, s, frames[0]);
      match handled {
        case Reply(r) =>
          ServeDecision(back, s1, frames[1..], decisions, d);
          PrependResolved(back, r, Serve(back, s1, frames[1..], decisions), d);
        case Hold(sequence) =>
          if decisions == [] {
            assert frames[1..] == [];
            assert all[0] == d && all[1..] == [];
          } else {
            assert all[0] == decisions[0] && all[1..] == decisions[1..] + [d];
            var (router, bytes) := back.finish(s1.router, decisions[0]);
            var s2 := s1.(router := router);
            ServeDecision(back, s2, frames[1..], decisions[1..], d);
            PrependResolved(back, DataBlock(sequence, bytes), Serve(back, s2, frames[1..], decisions[1..]), d);
          }
      }
    }
  }

  lemma PrependResolved<R>(back: Back<R>, r: Response, t: Trace<R>, d: bool)
    requires t.waiting.Some?
    ensures Resolved(back, Prepend(r, t), d) == Prepend(r, Resolved(back, t, d))
  {
    var (router, bytes) := back.finish(t.session.router, d);
    var last := DataBlock(t.waiting.value, bytes);
    assert ([r] + t.answers) + [last] == [r] + (t.answers + [last]);
  }

  // ----- whole runs --------------------------------------------------------------------------

  /** Since the last reset: octets taken in, frames handled, presence decisions and answers. */
  datatype Log<R> = Log(
    start: Session<R>, fed: seq<Byte>, frames: seq<seq<Byte>>, decisions: seq<bool>, answers: seq<Response>)

  function Fresh<R>(start: Session<R>): Log<R> { Log(start, [], [], [], []) }

  function Noted<R>(log: Log<R>, outcome: Outcome): Log<R>
  {
    if outcome.Answer? then log.(answers := log.answers + [outcome.response]) else log
  }

  function Logged<R>(back: Back<R>, cap: nat, log: Log<R>, c: Card<R>, e: Event): Log<R>
    requires cap >= HEADER_LEN
  {
    var (c', outcome) := Next(back, cap, c, e);
    match e
    case Feed(chunk) => if outcome.Failed? then log else log.(fed := log.fed + chunk)
    case Poll(_) =>
      if c.waiting.Some? || !NextFrame(c.buffer, cap).Whole? then log
      else Noted(log.(frames := log.frames + [c.buffer[..NextFrame(c.buffer, cap).length]]), outcome)
    case Resolve(confirmed, _) =>
      if c.waiting.None? then log else Noted(log.(decisions := log.decisions + [confirmed]), outcome)
    case Reset => Fresh(c'.session)
  }

  function Run<R>(back: Back<R>, cap: nat, log: Log<R>, c: Card<R>, events: seq<Event>): (Log<R>, Card<R>)
    requires cap >= HEADER_LEN
    decreases |events|
  {
    if events == [] then (log, c)
    else Run(back, cap, Logged(back, cap, log, c, events[0]), Next(back, cap, c, events[0]).0, events[1..])
  }

  /** An output buffer that holds any answer of this router. */
  ghost predicate Enough<R(!new)>(back: Back<R>, room: nat)
  {
    && room >= HEADER_LEN + 8
    && (forall r: R, b: seq<Byte> :: Small(back.command(r, b).1, room))
    && (forall r: R, b: bool :: HEADER_LEN + |back.finish(r, b).1| <= room)
  }

  predicate Small(v: Verdict, room: nat) { v.Data? ==> HEADER_LEN + |v.bytes| <= room }

  ghost predicate Roomy<R(!new)>(back: Back<R>, e: Event)
  {
    e.Poll? || e.Resolve? ==> Enough(back, e.room)
  }

  predicate AllFrames(frames: seq<seq<Byte>>, cap: nat)
    requires cap >= HEADER_LEN
  {
    forall i :: 0 <= i < |frames| ==> IsFrame(frames[i], cap)
  }

  /** The card is where the frames it handled, served one after the other, take it. */
  ghost predicate Inv<R>(back: Back<R>, cap: nat, log: Log<R>, c: Card<R>)
    requires cap >= HEADER_LEN
  {
    && log.fed == Concat(log.frames) + c.buffer
    && AllFrames(log.frames, cap)
    && Serve(back, log.start, log.frames, log.decisions) == Trace(c.session, log.answers, c.waiting, [], |log.frames|)
  }

  lemma AnswerFits<R(!new)>(back: Back<R>, s: Session<R>, frame: seq<Byte>, room: nat)
    requires Enough(back, room) && HandleFrame(back, s, frame).1.Reply?
    ensures |Encode(HandleFrame(back, s, frame).1.response)| <= room
  {
    hide Encode;
    var h := ParseHeader(frame);
    if h.Some? && ParseRequest(h.value).Some? && ParseRequest(h.value).value.XfrBlock? {
      assert Small(back.command(s.router, ParseRequest(h.value).value.data).1, room);
    }
  }

  lemma ConcatMore(frames: seq<seq<Byte>>, f: seq<Byte>, rest: seq<Byte>)
    ensures Concat(frames + [f]) + rest == Concat(frames) + (f + rest)
  {
    assert (frames + [f])[..|frames|] == frames;
  }

  lemma PollKeeps<R(!new)>(back: Back<R>, cap: nat, log: Log<R>, c: Card<R>, e: Event)
    requires cap >= HEADER_LEN && Inv(back, cap, log, c) && e.Poll? && Roomy(back, e)
    ensures Inv(back, cap, Logged(back, cap, log, c, e), Next(back, cap, c, e).0)
  {
    hide HandleFrame, Serve, Encode, Enough;
    if c.waiting.None? && NextFrame(c.buffer, cap).Whole? {
      var n := NextFrame(c.buffer, cap).length;
      var f := c.buffer[..n];
      FirstIsFrame(c.buffer, cap);
      hide NextFrame;
      ConcatMore(log.frames, f, c.buffer[n..]);
      assert f + c.buffer[n..] == c.buffer;
      ServeFrame(back, log.start, log.frames, log.decisions, f);
      if HandleFrame(back, c.session, f).1.Reply? {
        AnswerFits(back, c.session, f, e.room);
      }
    }
  }

  lemma ResolveKeeps<R(!new)>(back: Back<R>, cap: nat, log: Log<R>, c: Card<R>, e: Event)
    requires cap >= HEADER_LEN && Inv(back, cap, log, c) && e.Resolve? && Roomy(back, e)
    ensures Inv(back, cap, Logged(back, cap, log, c, e), Next(back, cap, c, e).0)
  {
    hide HandleFrame, Serve, Encode;
    if c.waiting.Some? {
      ServeDecision(back, log.start, log.frames, log.decisions, e.confirmed);
    }
  }

  lemma NextKeeps<R(!new)>(back: Back<R>, cap: nat, log: Log<R>, c: Card<R>, e: Event)
    requires cap >= HEADER_LEN && Inv(back, cap, log, c) && Roomy(back, e)
    ensures Inv(back, cap, Logged(back, cap, log, c, e), Next(back, cap, c, e).0)
  {
    match e {
      case Poll(_) => PollKeeps(back, cap, log, c, e);
      case Resolve(_, _) => ResolveKeeps(back, cap, log, c, e);
      case Feed(chunk) =>
        assert (Concat(log.frames) + c.buffer) + chunk == Concat(log.frames) + (c.buffer + chunk);
      case Reset =>
    }
  }

  lemma {:induction false} RunKeeps<R(!new)>(back: Back<R>, cap: nat, log: Log<R>, c: Card<R>, events: seq<Event>)
    requires cap >= HEADER_LEN && Inv(back, cap, log, c)
    requires forall i :: 0 <= i < |events| ==> Roomy(back, events[i])
    ensures Inv(back, cap, Run(back, cap, log, c, events).0, Run(back, cap, log, c, events).1)
    decreases |events|
  {
    hide Inv, Logged, Next, Roomy;
    if events != [] {
      NextKeeps(back, cap, log, c, events[0]);
      RunKeeps(back, cap, Logged(back, cap, log, c, events[0]), Next(back, cap, c, events[0]).0, events[1..]);
    }
  }

  /** The card at power-up and its empty log. */
  function Boot<R>(router: R): Card<R> { Card([], Session(router, false), None) }

  function BootRun<R>(back: Back<R>, cap: nat, router: R, events: seq<Event>): (Log<R>, Card<R>)
    requires cap >= HEADER_LEN
  {
    Run(back, cap, Fresh(Session(router, false)), Boot(router), events)
  }

  /** Every answer carries the sequence number of its own frame. */
  predicate Matched(frames: seq<seq<Byte>>, answers: seq<Response>)
  {
    && |answers| <= |frames|
    && forall i :: 0 <= i < |answers| ==> answers[i].sequence == SequenceOf(frames[i])
  }

  lemma HandleEchoes<R>(back: Back<R>, s: Session<R>, frame: seq<Byte>)
    ensures var handled := HandleFrame(back, s, frame).1;
            (if handled.Reply? then handled.response.sequence else handled.sequence) == SequenceOf(frame)
  {
  }

  lemma {:induction false} ServeMatches<R>(back: Back<R>, s: Session<R>, frames: seq<seq<Byte>>, decisions: seq<bool>)
    ensures var t := Serve(back, s, frames, decisions);
            && t.handled <= |frames| && Matched(frames, t.answers)
            && |t.answers| + (if t.waiting.Some? then 1 else 0) == t.handled
            && (t.waiting.Some? ==> t.handled > 0 && t.waiting.value == SequenceOf(frames[t.handled - 1]))
    decreases |frames|
  {
    hide HandleFrame;
    if frames != [] {
      HandleEchoes(back, s, frames[0]);
      var (s1, handled) := HandleFrame(back, s, frames[0]);
      match handled {
        case Reply(r) =>
          ServeMatches(back, s1, frames[1..], decisions);
        case Hold(sequence) =>
          if decisions != [] {
            var (router, bytes) := back.finish(s1.router, decisions[0]);
            ServeMatches(back, s1.(router := router), frames[1..], decisions[1..]);
          }
      }
    }
  }

  /** The power the frames leave, from the power before them. */
  function PowerAfter(frames: seq<seq<Byte>>, powered: bool): bool
    decreases |frames|
  {
    if frames == [] then powered
    else
      var f := frames[|frames| - 1];
      Bare(f, 0x62) || (PowerAfter(frames[..|frames| - 1], powered) && !Bare(f, 0x63))
  }

  /** The card is powered exactly by the last power-on or power-off it handled. */
  lemma {:induction false} ServePower<R>(back: Back<R>, s: Session<R>, frames: seq<seq<Byte>>, decisions: seq<bool>)
    requires Serve(back, s, frames, decisions).handled == |frames|
    ensures Serve(back, s, frames, decisions).session.powered == PowerAfter(frames, s.powered)
    decreases |frames|
  {
    hide HandleFrame, Bare;
    if frames != [] {
      PowerFrames(back, s, frames[0]);
      var (s1, handled) := HandleFrame(back, s, frames[0]);
      PowerFirst(frames, s.powered);
      match handled {
        case Reply(r) => ServePower(back, s1, frames[1..], decisions);
        case Hold(sequence) =>
          if decisions == [] {
            assert frames[1..] == [];
          } else {
            var (router, bytes) := back.finish(s1.router, decisions[0]);
            ServePower(back, s1.(router := router), frames[1..], decisions[1..]);
          }
      }
    }
  }

  lemma {:induction false} PowerFirst(frames: seq<seq<Byte>>, powered: bool)
    requires frames != []
    ensures PowerAfter(frames, powered)
            == PowerAfter(frames[1..], Bare(frames[0], 0x62) || (powered && !Bare(frames[0], 0x63)))
    decreases |frames|
  {
    hide Bare;
    var n := |frames| - 1;
    if n == 0 {
      assert frames[..0] == [] && frames[1..] == [];
    } else {
      PowerFirst(frames[..n], powered);
      assert frames[..n][1..] == frames[1..][..n - 1];
    }
  }

  /**
   For every run whose output buffers are large enough: the frames handled, and those
   still buffered, are the frames of the unsplit stream; each handled frame but a held
   last one is answered once, in order, with its own `bSeq`; and session and answers are
   those of serving the frames one after the other.
   */
  lemma CardServesStream<R(!new)>(back: Back<R>, cap: nat, router: R, events: seq<Event>)
    requires cap >= HEADER_LEN && forall i :: 0 <= i < |events| ==> Roomy(back, events[i])
    ensures var (log, c) := BootRun(back, cap, router, events);
            && Frames(log.fed, cap) == log.frames + Frames(c.buffer, cap)
            && Matched(log.frames, log.answers)
            && |log.frames| == |log.answers| + (if c.waiting.Some? then 1 else 0)
            && (c.waiting.Some? ==> c.waiting == Some(SequenceOf(log.frames[|log.frames| - 1])))
            && var t := Serve(back, log.start, log.frames, log.decisions);
               t.session == c.session && t.answers == log.answers && t.waiting == c.waiting && t.left == []
  {
    hide Serve, Frames, Roomy, Run;
    BootInv(back, cap, router);
    RunKeeps(back, cap, Fresh(Session(router, false)), Boot(router), events);
    var (log, c) := BootRun(back, cap, router, events);
    FramesOfConcat(log.frames, c.buffer, cap);
    ServeMatches(back, log.start, log.frames, log.decisions);
  }

  lemma BootInv<R>(back: Back<R>, cap: nat, router: R)
    requires cap >= HEADER_LEN
    ensures Inv(back, cap, Fresh(Session(router, false)), Boot(router))
  {
  }

  /** Nothing the card could still do without new packets. */
  predicate Idle<R>(cap: nat, c: Card<R>)
    requires cap >= HEADER_LEN
  {
    c.waiting.None? && !NextFrame(c.buffer, cap).Whole?
  }

  /**
   How the stream was split into packets, and when the card was polled, leaves no trace:
   two runs from one start that took in the same octets and the same decisions and have
   come to rest gave the same answers and are in the same state.
   */
  lemma SplittingLeavesNoTrace<R(!new)>(back: Back<R>, cap: nat, router: R, one: seq<Event>, two: seq<Event>)
    requires cap >= HEADER_LEN
    requires forall i :: 0 <= i < |one| ==> Roomy(back, one[i])
    requires forall i :: 0 <= i < |two| ==> Roomy(back, two[i])
    requires var (l1, c1) := BootRun(back, cap, router, one);
             var (l2, c2) := BootRun(back, cap, router, two);
             && l1.start == l2.start && l1.fed == l2.fed && l1.decisions == l2.decisions
             && Idle(cap, c1) && Idle(cap, c2)
    ensures var (l1, c1) := BootRun(back, cap, router, one);
            var (l2, c2) := BootRun(back, cap, router, two);
            l1.answers == l2.answers && l1.frames == l2.frames && c1 == c2
  {
    CardServesStream(back, cap, router, one);
    CardServesStream(back, cap, router, two);
    BootInv(back, cap, router);
    RunKeeps(back, cap, Fresh(Session(router, false)), Boot(router), one);
    RunKeeps(back, cap, Fresh(Session(router, false)), Boot(router), two);
    hide Serve, Roomy, Run, NextFrame, Matched, AllFrames;
    var (l1, c1) := BootRun(back, cap, router, one);
    var (l2, c2) := BootRun(back, cap, router, two);
    assert Frames(c1.buffer, cap) == [] && Frames(c2.buffer, cap) == [];
    assert l1.frames + [] == l1.frames && l2.frames + [] == l2.frames;
    assert l1.frames == l2.frames;
    var head := Concat(l1.frames);
    assert c1.buffer == (head + c1.buffer)[|head|..];
    assert c2.buffer == (head + c2.buffer)[|head|..];
  }

  // ----- the card object ---------------------------------------------------------------------

  class Device<R> {
    const back: Back<R>
    const assembler: Assembler
    var router: R
    var powered: bool
    var waiting: Option<Byte>

    ghost predicate Valid()
      reads this, assembler
    {
      assembler.Valid()
    }

    ghost function View(): Card<R>
      requires Valid()
      reads this, assembler, assembler.data
    {
      Card(assembler.Contents(), Session(router, powered), waiting)
    }

    constructor (back: Back<R>, router: R, cap: nat)
      requires cap >= HEADER_LEN
      ensures Valid() && fresh(assembler) && fresh(assembler.data) && this.back == back
      ensures assembler.data.Length == cap && View() == Boot(router)
    {
      this.back, this.router, powered, waiting := back, router, false, None;
      assembler := new Assembler(cap);
    }

    method FeedPacket(chunk: seq<Byte>) returns (outcome: Outcome)
      requires Valid()
      modifies this, assembler, assembler.data
      ensures Valid() && (View(), outcome) == Next(back, assembler.data.Length, old(View()), Feed(chunk))
    {
      var ok := assembler.Feed(chunk);
      return if ok then Nothing else Failed;
    }

    /** Handle the next whole frame unless one is held; the frame is consumed either way. */
    method PollFrame(room: nat) returns (outcome: Outcome)
      requires Valid()
      modifies this, assembler, assembler.data
      ensures Valid() && (View(), outcome) == Next(back, assembler.data.Length, old(View()), Poll(room))
    {
      hide HandleFrame;
      if waiting.Some? {
        return Nothing;
      }
      var scan := assembler.Pending();
      match scan {
        case More => return Nothing;
        case Overflow => return Failed;
        case Whole(n) =>
          var frame := assembler.Contents()[..n];
          var (session, handled) := HandleFrame(back, Session(router, powered), frame);
          router, powered := session.router, session.powered;
          assembler.Consume(n);
          match handled {
            case Reply(r) => return Fitted(r, room);
            case Hold(sequence) =>
              waiting := Some(sequence);
              return Ask;
          }
      }
    }

    method CompletePresence(confirmed: bool, room: nat) returns (outcome: Outcome)
      requires Valid()
      modifies this, assembler, assembler.data
      ensures Valid() && (View(), outcome) == Next(back, assembler.data.Length, old(View()), Resolve(confirmed, room))
    {
      if waiting.None? {
        return Nothing;
      }
      var sequence := waiting.value;
      waiting := None;
      var (r, bytes) := back.finish(router, confirmed);
      router := r;
      return Fitted(DataBlock(sequence, bytes), room);
    }

    method ResetCard()
      requires Valid()
      modifies this, assembler, assembler.data
      ensures Valid() && (View(), Nothing) == Next(back, assembler.data.Length, old(View()), Reset)
    {
      assembler.Clear();
      router, powered, waiting := back.reset(router), false, None;
    }
  }
}
