/** Response chaining: an answer longer than the host asked for is handed out in `61xx` pieces. */
module Chaining {
  import opened Wrappers
  import opened Bytes
  import opened StatusWords

  const SHORT_LIMIT: nat := 256

  /** Data and status word of an answer. */
  datatype Reply = Reply(data: seq<Byte>, sw: Sw)

  function Just(sw: Sw): Reply { Reply([], sw) }

  /** The buffered answer and how much of it is out. */
  datatype Buffer = Buffer(pending: seq<Byte>, delivered: nat)

  type Chain = b: Buffer | b.delivered <= |b.pending| witness Buffer([], 0)

  function Empty(): Chain { Buffer([], 0) }

  function Remaining(c: Chain): nat { |c.pending| - c.delivered }

  /** `61xx`: that many octets are left, or at least 255. */
  function BytesRemaining(n: nat): Sw { 0x6100 + if n < 255 then n else 255 }

  function Deliver(c: Chain, le: nat): (r: (Chain, Reply))
    ensures r.0.pending == c.pending
    ensures c.pending[c.delivered..] == r.1.data + c.pending[r.0.delivered..]
    ensures var n := Remaining(r.0);
      r.1.sw == if n == 0 then 0x9000 else 0x6100 + if n < 256 then n else 255
    ensures Remaining(c) > 0 ==> r.1.data != []
    ensures |r.1.data| <= if le == 0 then SHORT_LIMIT else le
    ensures var most := if le == 0 then 256 else le; |r.1.data| == if Remaining(c) < most then Remaining(c) else most
  {
    var limit := if le == 0 then SHORT_LIMIT else le;
    if Remaining(c) == 0 then (c, Reply([], OK))
    else if Remaining(c) <= limit then (c.(delivered := |c.pending|), Reply(c.pending[c.delivered..], OK))
    else
      var d := c.(delivered := c.delivered + limit);
      (d, Reply(c.pending[c.delivered..d.delivered], BytesRemaining(Remaining(d))))
  }

  /** A new answer, refused when it does not fit the buffer. */
  function Begin(data: seq<Byte>, le: nat, cap: nat): (r: (Chain, Reply))
  {
    if |data| > cap then (Empty(), Just(NO_DIAGNOSIS)) else Deliver(Buffer(data, 0), le)
  }

  function GetResponse(c: Chain, le: nat): (r: (Chain, Reply))
  {
    if Remaining(c) == 0 then (c, Just(CONDITIONS)) else Deliver(c, le)
  }

  /** What a host gathers with one GET RESPONSE after the other. */
  function Gathered(c: Chain, les: seq<nat>): seq<Byte>
    decreases |les|
  {
    if les == [] then []
    else
      var (d, reply) := GetResponse(c, les[0]);
      reply.data + Gathered(d, les[1..])
  }

  lemma {:induction false} GatheredIsRest(c: Chain, les: seq<nat>)
    requires |les| >= Remaining(c)
    ensures Gathered(c, les) == c.pending[c.delivered..]
    decreases |les|
  {
    if les != [] {
      var d, rest := GetResponse(c, les[0]).0, les[1..];
      if Remaining(c) == 0 {
        GatheredIsRest(c, rest);
      } else {
        hide Deliver;
        assert |c.pending[c.delivered..]| == |GetResponse(c, les[0]).1.data| + |c.pending[d.delivered..]|;
        GatheredIsRest(d, rest);
      }
    }
  }

  /** However the host sizes its requests, the first piece and enough more are exactly the answer. */
  lemma ChainDeliversAll(data: seq<Byte>, le: nat, cap: nat, les: seq<nat>)
    requires |data| <= cap && |les| >= |data|
    ensures Begin(data, le, cap).1.data + Gathered(Begin(data, le, cap).0, les) == data
    ensures Begin(data, le, cap).1.sw == OK <==> |data| <= (if le == 0 then SHORT_LIMIT else le)
  {
    var (c, first) := Begin(data, le, cap);
    GatheredIsRest(c, les);
    assert data[0..] == data;
  }

  /** The chainer of the router, updated in place. */
  class Chainer {
    const cap: nat
    var pending: seq<Byte>
    var delivered: nat

    ghost predicate Valid()
      reads this
    {
      delivered <= |pending| <= cap
    }

    function View(): Buffer
      reads this
    {
      Buffer(pending, delivered)
    }

    constructor (cap: nat)
      ensures Valid() && this.cap == cap && View() == Empty()
    {
      this.cap, pending, delivered := cap, [], 0;
    }

    method Clear()
      modifies this
      ensures Valid() && View() == Empty()
    {
      pending, delivered := [], 0;
    }

    method Next(le: nat) returns (r: Reply)
      requires Valid()
      modifies this
      ensures Valid() && (View(), r) == Deliver(old(View()), le)
    {
      var remaining := |pending| - delivered;
      if remaining == 0 { return Reply([], OK); }
      var limit := if le == 0 then SHORT_LIMIT else le;
      var start := delivered;
      if remaining <= limit {
        delivered := |pending|;
        return Reply(pending[start..], OK);
      }
      delivered := delivered + limit;
      return Reply(pending[start..delivered], BytesRemaining(|pending| - delivered));
    }

    method Start(data: seq<Byte>, le: nat) returns (r: Reply)
      modifies this
      ensures Valid() && (View(), r) == Begin(data, le, cap)
    {
      Clear();
      if |data| > cap { return Just(NO_DIAGNOSIS); }
      pending := data;
      r := Next(le);
    }

    method Resume(le: nat) returns (r: Reply)
      requires Valid()
      modifies this
      ensures Valid() && (View(), r) == GetResponse(old(View()), le)
    {
      if delivered >= |pending| { return Just(CONDITIONS); }
      r := Next(le);
    }
  }
}
