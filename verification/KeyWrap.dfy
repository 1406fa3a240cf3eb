/**
 AES key wrap (RFC 3394) over an uninterpreted block permutation.

 The in-place loops of the card and of the sender are proved against a chain of
 6n single steps; step `k` mixes the counter `k + 1` into the register, which is
 the `n * round + index + 1` of the nested loops.
 */
module KeyWrap {
  import opened Wrappers
  import opened Bytes
  import opened Chain
  import NumberTheory

  type Block16 = b: seq<Byte> | |b| == 16
    witness [0, 0, 0, 0, 0, 0, 0, 0, 0, 0, 0, 0, 0, 0, 0, 0]

  /** Encryption and decryption of one 16-octet block under a given key. */
  datatype Cipher =
    Cipher(enc: (seq<Byte>, Block16) -> Block16, dec: (seq<Byte>, Block16) -> Block16)

  predicate GoodKey(key: seq<Byte>) { |key| == 16 || |key| == 24 || |key| == 32 }

  /** Names one key and block at which the inverse law is used. */
  predicate At(k: seq<Byte>, b: Block16) { true }

  /** A block cipher: under every key the two directions are inverse permutations. */
  ghost predicate Permutation(c: Cipher)
  {
    forall k, b: Block16 {:trigger At(k, b)} ::
      At(k, b) ==> c.dec(k, c.enc(k, b)) == b && c.enc(k, c.dec(k, b)) == b
  }

  const IV: seq<Byte> := [0xA6, 0xA6, 0xA6, 0xA6, 0xA6, 0xA6, 0xA6, 0xA6]
  /** Capacity of the block vector `r`, in blocks. */
  const MAX_BLOCKS := 8
  /** Capacity of the output vector, in octets. */
  const MAX_UNWRAPPED := 64

  type Block = b: seq<Byte> | |b| == 8 witness IV

  /** The integrity register and the key blocks. */
  datatype State = Registers(a: Block, r: seq<Block>)

  /** The register with the 64-bit big-endian counter mixed in. */
  function Mix(a: Block, t: nat): Block { XorSeq(a, ToBE(t, 8)) }

  lemma MixCancel(a: Block, t: nat)
    ensures Mix(Mix(a, t), t) == a
  {
    XorSeqCancel(a, ToBE(t, 8));
  }

  /** The counter goes in as a 64-bit big-endian number. */
  lemma MixIsCounter(a: Block, t: nat, m: seq<Byte>)
    requires |m| == 8 && FromBE(m) == t
    ensures Mix(a, t) == XorSeq(a, m)
    ensures FromBE(Mix(Zeros(8), t)) == t
  {
    hide Xor;
    BEUnique(m, t, 8);
    forall i | 0 <= i < 8
      ensures Mix(Zeros(8), t)[i] == m[i]
    {
      XorWithZero(m[i]);
    }
    assert Mix(Zeros(8), t) == m;
  }

  /** One inner iteration of the wrapping loop, on block `i` with counter `t`. */
  function StepAt(c: Cipher, kek: seq<Byte>, s: State, i: nat, t: nat): (s': State)
    requires i < |s.r|
    ensures |s'.r| == |s.r|
  {
    var b := c.enc(kek, s.a + s.r[i]);
    Registers(Mix(b[..8], t), s.r[i := b[8..]])
  }

  /** One inner iteration of the unwrapping loop. */
  function UnstepAt(c: Cipher, kek: seq<Byte>, s: State, i: nat, t: nat): (s': State)
    requires i < |s.r|
    ensures |s'.r| == |s.r|
  {
    var b := c.dec(kek, Mix(s.a, t) + s.r[i]);
    Registers(b[..8], s.r[i := b[8..]])
  }

  lemma UnstepStep(c: Cipher, kek: seq<Byte>, s: State, i: nat, t: nat)
    requires Permutation(c) && i < |s.r|
    ensures UnstepAt(c, kek, StepAt(c, kek, s, i, t), i, t) == s
  {
    var b := c.enc(kek, s.a + s.r[i]);
    assert At(kek, s.a + s.r[i]);
    MixCancel(b[..8], t);
    assert b[..8] + b[8..] == b;
    assert (s.a + s.r[i])[..8] == s.a && (s.a + s.r[i])[8..] == s.r[i];
    assert s.r[i := b[8..]][i := s.r[i]] == s.r;
  }

  lemma StepUnstep(c: Cipher, kek: seq<Byte>, s: State, i: nat, t: nat)
    requires Permutation(c) && i < |s.r|
    ensures StepAt(c, kek, UnstepAt(c, kek, s, i, t), i, t) == s
  {
    var m: Block := Mix(s.a, t);
    var b := c.dec(kek, m + s.r[i]);
    assert At(kek, m + s.r[i]);
    MixCancel(s.a, t);
    assert b[..8] + b[8..] == b;
    assert (m + s.r[i])[..8] == m && (m + s.r[i])[8..] == s.r[i];
    assert s.r[i := b[8..]][i := s.r[i]] == s.r;
  }

  function Step(c: Cipher, kek: seq<Byte>): (State, nat) -> State
  {
    (s: State, k: nat) => if s.r == [] then s else StepAt(c, kek, s, k % |s.r|, k + 1)
  }

  function Unstep(c: Cipher, kek: seq<Byte>): (State, nat) -> State
  {
    (s: State, k: nat) => if s.r == [] then s else UnstepAt(c, kek, s, k % |s.r|, k + 1)
  }

  lemma StepsAreInverse(c: Cipher, kek: seq<Byte>)
    requires Permutation(c)
    ensures Undoes(Unstep(c, kek), Step(c, kek)) && Undoes(Step(c, kek), Unstep(c, kek))
  {
    hide StepAt, UnstepAt, Permutation;
    var f, g := Step(c, kek), Unstep(c, kek);
    forall s: State, k: nat ensures g(f(s, k), k) == s {
      if s.r != [] { UnstepStep(c, kek, s, k % |s.r|, k + 1); }
    }
    forall s: State, k: nat ensures f(g(s, k), k) == s {
      if s.r != [] { StepUnstep(c, kek, s, k % |s.r|, k + 1); }
    }
  }

  lemma {:induction false} ForwardLength(c: Cipher, kek: seq<Byte>, s: State, count: nat)
    ensures |Forward(Step(c, kek), s, count).r| == |s.r|
  {
    if count > 0 { ForwardLength(c, kek, s, count - 1); }
  }

  lemma {:induction false} BackwardLength(c: Cipher, kek: seq<Byte>, s: State, count: nat)
    ensures |Backward(Unstep(c, kek), s, count).r| == |s.r|
    decreases count
  {
    hide UnstepAt;
    if count > 0 { BackwardLength(c, kek, Unstep(c, kek)(s, count - 1), count - 1); }
  }

  // ----- octets and blocks -------------------------------------------------------

  function Split(data: seq<Byte>): (r: seq<Block>)
    requires |data| % 8 == 0
    ensures 8 * |r| == |data|
  {
    if data == [] then [] else [data[..8]] + Split(data[8..])
  }

  function Join(r: seq<Block>): (data: seq<Byte>)
    ensures |data| == 8 * |r|
  {
    if r == [] then [] else r[0] + Join(r[1..])
  }

  lemma {:induction false} SplitJoin(r: seq<Block>)
    ensures Split(Join(r)) == r
  {
    if r != [] {
      SplitJoin(r[1..]);
      assert Join(r)[..8] == r[0] && Join(r)[8..] == Join(r[1..]);
    }
  }

  lemma {:induction false} JoinSplit(data: seq<Byte>)
    requires |data| % 8 == 0
    ensures Join(Split(data)) == data
  {
    if data != [] {
      JoinSplit(data[8..]);
      assert Split(data)[1..] == Split(data[8..]);
      assert data[..8] + data[8..] == data;
    }
  }

  // ----- wrap and unwrap as functions ------------------------------------------------

  /** The wire form of the registers: the register first, then the blocks. */
  function Serialize(s: State): (w: seq<Byte>)
    ensures |w| == 8 + 8 * |s.r|
  {
    s.a + Join(s.r)
  }

  function Parse(w: seq<Byte>): (s: State)
    requires |w| >= 8 && |w| % 8 == 0
    ensures 8 + 8 * |s.r| == |w|
  {
    Registers(w[..8], Split(w[8..]))
  }

  lemma ParseSerialize(s: State)
    ensures Parse(Serialize(s)) == s
  {
    SplitJoin(s.r);
    assert Serialize(s)[..8] == s.a && Serialize(s)[8..] == Join(s.r);
  }

  lemma SerializeParse(w: seq<Byte>)
    requires |w| >= 8 && |w| % 8 == 0
    ensures Serialize(Parse(w)) == w
  {
    JoinSplit(w[8..]);
    assert w[..8] + w[8..] == w;
  }

  function WrapSpec(c: Cipher, kek: seq<Byte>, data: seq<Byte>): Option<seq<Byte>>
  {
    if !GoodKey(kek) || |data| < 16 || |data| % 8 != 0 then None
    else if |data| > 8 * MAX_BLOCKS || 8 + |data| > MAX_UNWRAPPED then None
    else
      var s := Registers(IV, Split(data));
      Some(Serialize(Forward(Step(c, kek), s, |s.r| * 6)))
  }

  function UnwrapSpec(c: Cipher, kek: seq<Byte>, wrapped: seq<Byte>): Option<seq<Byte>>
  {
    if |wrapped| < 16 || |wrapped| % 8 != 0 || |wrapped| - 8 > 8 * MAX_BLOCKS || !GoodKey(kek) then None
    else
      var s := Parse(wrapped);
      var u := Backward(Unstep(c, kek), s, |s.r| * 6);
      if u.a != IV then None else Some(Join(u.r))
  }

  // ----- the shift-register form of section 2.2.1 of RFC 3394 -----------------------------

  /** Step `t`: encrypt the register and the first block, mix the counter in, shift the blocks. */
  function ShiftStep(c: Cipher, kek: seq<Byte>, s: State, t: nat): (s': State)
    requires s.r != []
    ensures |s'.r| == |s.r|
  {
    var b := c.enc(kek, s.a + s.r[0]);
    Registers(XorSeq(b[..8], ToBE(t, 8)), s.r[1..] + [b[8..]])
  }

  function Shifted(c: Cipher, kek: seq<Byte>, s: State, count: nat): (s': State)
    requires s.r != []
    ensures |s'.r| == |s.r|
  {
    if count == 0 then s else ShiftStep(c, kek, Shifted(c, kek, s, count - 1), count)
  }

  /** The blocks as the shift register holds them after `k` steps within a pass. */
  function Turned(r: seq<Block>, k: nat): (t: seq<Block>)
    requires k < |r|
    ensures |t| == |r|
  {
    r[k..] + r[..k]
  }

  lemma TurnOnce(r: seq<Block>, k: nat, x: Block)
    requires k < |r|
    ensures Turned(r, k)[0] == r[k]
    ensures Turned(r, k)[1..] + [x] == if k + 1 < |r| then Turned(r[k := x], k + 1) else r[k := x]
  {
    var u := r[k := x];
    if k + 1 < |r| {
      assert u[k + 1..] == r[k + 1..] && u[..k + 1] == r[..k] + [x];
    } else {
      assert u == r[..k] + [x];
    }
  }

  /** After `at` steps the shift register is the indexed one, turned to block `k`. */
  predicate Aligned(c: Cipher, kek: seq<Byte>, s: State, at: nat, k: nat)
    requires k < |s.r|
  {
    var f := Forward(Step(c, kek), s, at);
    |f.r| == |s.r| && Shifted(c, kek, s, at) == Registers(f.a, Turned(f.r, k))
  }

  /** One step of each, from aligned registers: `f` indexed, `k` its next block. */
  lemma StepAligns(c: Cipher, kek: seq<Byte>, f: State, at: nat, k: nat)
    requires k < |f.r|
    ensures var g := StepAt(c, kek, f, k, at + 1);
            ShiftStep(c, kek, Registers(f.a, Turned(f.r, k)), at + 1)
            == Registers(g.a, Turned(g.r, if k + 1 < |f.r| then k + 1 else 0))
  {
    hide XorSeq, ToBE;
    var b := c.enc(kek, f.a + f.r[k]);
    TurnOnce(f.r, k, b[8..]);
    var u := f.r[k := b[8..]];
    assert u[0..] + u[..0] == u;
  }

  lemma AlignNext(c: Cipher, kek: seq<Byte>, s: State, at: nat, k: nat)
    requires k < |s.r| && at % |s.r| == k && Aligned(c, kek, s, at, k)
    ensures Aligned(c, kek, s, at + 1, if k + 1 < |s.r| then k + 1 else 0)
  {
    hide StepAt, ShiftStep, Turned;
    var f := Forward(Step(c, kek), s, at);
    assert Forward(Step(c, kek), s, at + 1) == StepAt(c, kek, f, k, at + 1);
    StepAligns(c, kek, f, at, k);
  }

  lemma AlignStart(c: Cipher, kek: seq<Byte>, s: State)
    requires s.r != []
    ensures Aligned(c, kek, s, 0, 0)
  {
    assert s.r[0..] + s.r[..0] == s.r;
  }

  /** Step number `at` is block `k` of pass `round`. */
  predicate Numbered(n: nat, round: nat, k: nat, at: nat) { k < n && at == n * round + k }

  lemma NumberedBefore(n: nat, round: nat, k: nat, at: nat) returns (round': nat, k': nat)
    requires Numbered(n, round, k, at) && at > 0
    ensures Numbered(n, round', k', at - 1) && k == if k' + 1 < n then k' + 1 else 0
    ensures (at - 1) % n == k'
  {
    if k > 0 {
      round', k' := round, k - 1;
    } else {
      round', k' := round - 1, n - 1;
      assert n * round == n * (round - 1) + n;
    }
    StepIndex(n, round', k');
  }

  lemma NumberedZero(n: nat, round: nat, k: nat)
    requires Numbered(n, round, k, 0)
    ensures k == 0
  {
  }

  lemma {:induction false} ShiftIsIndex(c: Cipher, kek: seq<Byte>, s: State, round: nat, k: nat, at: nat)
    requires Numbered(|s.r|, round, k, at)
    ensures k < |s.r| && Aligned(c, kek, s, at, k)
    decreases at
  {
    hide Aligned;
    if at == 0 {
      NumberedZero(|s.r|, round, k);
      AlignStart(c, kek, s);
    } else {
      var round', k' := NumberedBefore(|s.r|, round, k, at);
      ShiftIsIndex(c, kek, s, round', k', at - 1);
      AlignNext(c, kek, s, at - 1, k');
    }
  }

  /**
   Wrapping is the shift-register algorithm of section 2.2.1 of RFC 3394: the register starts as eight
   octets A6, the blocks are the data eight octets at a time, and `6n` steps run from counter one.
   */
  lemma WrapIsShiftRegister(c: Cipher, kek: seq<Byte>, data: seq<Byte>, r: seq<Block>)
    requires GoodKey(kek) && 16 <= |data| <= 56 && |data| == 8 * |r|
    requires forall i :: 0 <= i < |r| ==> r[i] == data[8 * i..8 * i + 8]
    ensures var s := Shifted(c, kek, Registers([0xA6, 0xA6, 0xA6, 0xA6, 0xA6, 0xA6, 0xA6, 0xA6], r), 6 * |r|);
            && WrapSpec(c, kek, data).Some? && |WrapSpec(c, kek, data).value| == 8 + |data|
            && WrapSpec(c, kek, data).value[..8] == s.a
            && forall i :: 0 <= i < |r| ==> WrapSpec(c, kek, data).value[8 + 8 * i..16 + 8 * i] == s.r[i]
  {
    hide Step, Forward, Shifted;
    SplitIs(data, r);
    var start := Registers(IV, r);
    ShiftIsIndex(c, kek, start, 6, 0, |r| * 6);
    var f := Forward(Step(c, kek), start, |r| * 6);
    assert f.r[0..] + f.r[..0] == f.r;
    assert |r| * 6 == 6 * |r|;
    hide Split, Turned, Join;
    SerializeIs(f);
  }

  lemma SerializeIs(s: State)
    ensures Serialize(s)[..8] == s.a
    ensures forall i :: 0 <= i < |s.r| ==> Serialize(s)[8 + 8 * i..16 + 8 * i] == s.r[i]
  {
    JoinIs(s.r);
    forall i | 0 <= i < |s.r|
      ensures Serialize(s)[8 + 8 * i..16 + 8 * i] == s.r[i]
    {
      assert Serialize(s)[8 + 8 * i..16 + 8 * i] == Join(s.r)[8 * i..8 * i + 8];
    }
  }

  lemma {:induction false} SplitIs(data: seq<Byte>, r: seq<Block>)
    requires |data| == 8 * |r| && forall i :: 0 <= i < |r| ==> r[i] == data[8 * i..8 * i + 8]
    ensures Split(data) == r
    decreases |r|
  {
    if r != [] {
      forall i | 0 <= i < |r| - 1
        ensures r[1..][i] == data[8..][8 * i..8 * i + 8]
      {
        assert r[i + 1] == data[8 * (i + 1)..8 * (i + 1) + 8];
      }
      SplitIs(data[8..], r[1..]);
      assert r[0] == data[8 * 0..8 * 0 + 8];
    }
  }

  lemma {:induction false} JoinIs(r: seq<Block>)
    ensures forall i :: 0 <= i < |r| ==> Join(r)[8 * i..8 * i + 8] == r[i]
  {
    if r != [] {
      JoinIs(r[1..]);
      forall i | 0 <= i < |r|
        ensures Join(r)[8 * i..8 * i + 8] == r[i]
      {
        if i > 0 {
          assert Join(r)[8 * i..8 * i + 8] == Join(r[1..])[8 * (i - 1)..8 * (i - 1) + 8];
          assert r[1..][i - 1] == r[i];
        }
      }
    }
  }

  // ----- the two directions ------------------------------------------------------------------

  /** Unwrapping recovers every key the sender can wrap. */
  lemma UnwrapInvertsWrap(c: Cipher, kek: seq<Byte>, data: seq<Byte>)
    requires Permutation(c) && WrapSpec(c, kek, data).Some?
    ensures UnwrapSpec(c, kek, WrapSpec(c, kek, data).value) == Some(data)
  {
    hide Step, Unstep, Permutation;
    var s := Registers(IV, Split(data));
    var f := Forward(Step(c, kek), s, |s.r| * 6);
    ForwardLength(c, kek, s, |s.r| * 6);
    ParseSerialize(f);
    StepsAreInverse(c, kek);
    BackwardForward(Step(c, kek), Unstep(c, kek), s, |s.r| * 6);
    JoinSplit(data);
  }

  /**
   Conversely, whatever unwraps is the wrapping of its result, exactly for the
   lengths the sender accepts (two to seven key blocks).
   */
  lemma WrapInvertsUnwrap(c: Cipher, kek: seq<Byte>, wrapped: seq<Byte>)
    requires Permutation(c) && UnwrapSpec(c, kek, wrapped).Some?
    ensures 24 <= |wrapped| <= 64 ==> WrapSpec(c, kek, UnwrapSpec(c, kek, wrapped).value) == Some(wrapped)
    ensures WrapSpec(c, kek, UnwrapSpec(c, kek, wrapped).value).Some? <==> 24 <= |wrapped| <= 64
  {
    hide Step, Unstep, Permutation;
    var s := Parse(wrapped);
    var u := Backward(Unstep(c, kek), s, |s.r| * 6);
    BackwardLength(c, kek, s, |s.r| * 6);
    SplitJoin(u.r);
    StepsAreInverse(c, kek);
    ForwardBackward(Step(c, kek), Unstep(c, kek), s, |s.r| * 6);
    SerializeParse(wrapped);
  }

  /** The accepted wrapped keys of the sender's lengths are exactly the image of wrap. */
  lemma AcceptedIffWrapped(c: Cipher, kek: seq<Byte>, wrapped: seq<Byte>)
    requires Permutation(c) && 24 <= |wrapped| <= 64
    ensures UnwrapSpec(c, kek, wrapped).Some? <==> exists x :: WrapSpec(c, kek, x) == Some(wrapped)
  {
    if UnwrapSpec(c, kek, wrapped).Some? {
      WrapInvertsUnwrap(c, kek, wrapped);
    }
    forall x | WrapSpec(c, kek, x) == Some(wrapped) ensures UnwrapSpec(c, kek, wrapped).Some? {
      UnwrapInvertsWrap(c, kek, x);
    }
  }

  // ----- the in-place loops ------------------------------------------------------------

  /** Copy the octets into the block vector. */
  method Load(data: seq<Byte>) returns (r: array<Block>)
    requires |data| % 8 == 0
    ensures fresh(r) && r[..] == Split(data)
  {
    var blocks: seq<Block>, rest := [], data;
    while rest != []
      invariant |rest| % 8 == 0
      invariant blocks + Split(rest) == Split(data)
    {
      blocks, rest := blocks + [rest[..8]], rest[8..];
    }
    r := new Block[|blocks|](i requires 0 <= i < |blocks| => blocks[i]);
    assert r[..] == blocks;
  }

  method Concat(r: array<Block>) returns (out: seq<Byte>)
    ensures out == Join(r[..])
  {
    out := [];
    for i := 0 to r.Length
      invariant out + Join(r[i..]) == Join(r[..])
    {
      assert r[i..][1..] == r[i + 1..];
      out := out + r[i];
    }
  }

  lemma StepIndex(n: nat, round: nat, index: nat)
    requires index < n
    ensures (n * round + index) % n == index
  {
    NumberTheory.UniqueRemainder(n, round, index, (n * round + index) / n, (n * round + index) % n);
  }

  lemma ForwardOne(c: Cipher, kek: seq<Byte>, s0: State, s: State, base: nat, round: nat, index: nat)
    requires index < |s.r| && base == |s.r| * round
    requires s == Forward(Step(c, kek), s0, base + index)
    ensures StepAt(c, kek, s, index, base + index + 1) == Forward(Step(c, kek), s0, base + index + 1)
  {
    hide StepAt;
    StepIndex(|s.r|, round, index);
  }

  lemma BackwardAt(c: Cipher, kek: seq<Byte>, s: State, k: nat)
    requires s.r != []
    ensures Backward(Unstep(c, kek), s, k + 1)
      == Backward(Unstep(c, kek), UnstepAt(c, kek, s, k % |s.r|, k + 1), k)
  {
    hide UnstepAt;
  }

  lemma BackwardOne(c: Cipher, kek: seq<Byte>, s: State, base: nat, round: nat, index: nat)
    requires index < |s.r| && base == |s.r| * round
    ensures Backward(Unstep(c, kek), s, base + index + 1)
      == Backward(Unstep(c, kek), UnstepAt(c, kek, s, index, base + index + 1), base + index)
  {
    hide Unstep, UnstepAt, Backward;
    StepIndex(|s.r|, round, index);
    BackwardAt(c, kek, s, base + index);
  }

  /** The body of the inner wrapping loop, in place. */
  method WrapBlock(c: Cipher, kek: seq<Byte>, a: Block, r: array<Block>, index: nat, t: nat)
    returns (a': Block)
    requires index < r.Length
    modifies r
    ensures Registers(a', r[..]) == StepAt(c, kek, Registers(a, old(r[..])), index, t)
  {
    var block := c.enc(kek, a + r[index]);
    a' := Mix(block[..8], t);
    r[index] := block[8..];
    assert r[..] == old(r[..])[index := block[8..]];
  }

  /** The body of the inner unwrapping loop, in place. */
  method UnwrapBlock(c: Cipher, kek: seq<Byte>, a: Block, r: array<Block>, index: nat, t: nat)
    returns (a': Block)
    requires index < r.Length
    modifies r
    ensures Registers(a', r[..]) == UnstepAt(c, kek, Registers(a, old(r[..])), index, t)
  {
    var block := c.dec(kek, Mix(a, t) + r[index]);
    a' := block[..8];
    r[index] := block[8..];
    assert r[..] == old(r[..])[index := block[8..]];
  }

  /** One pass over the blocks; `base` is the number of steps already done. */
  method WrapPass(c: Cipher, kek: seq<Byte>, a0: Block, r: array<Block>, base: nat, ghost round: nat, ghost s0: State)
    returns (a: Block)
    requires r.Length > 0 && base == r.Length * round
    requires Registers(a0, r[..]) == Forward(Step(c, kek), s0, base)
    modifies r
    ensures Registers(a, r[..]) == Forward(Step(c, kek), s0, base + r.Length)
  {
    hide Step, StepAt;
    a := a0;
    for index := 0 to r.Length
      invariant Registers(a, r[..]) == Forward(Step(c, kek), s0, base + index)
    {
      ForwardOne(c, kek, s0, Registers(a, r[..]), base, round, index);
      a := WrapBlock(c, kek, a, r, index, base + index + 1);
    }
  }

  /** One pass over the blocks, last to first; `base` is the number of steps left after it. */
  method UnwrapPass(c: Cipher, kek: seq<Byte>, a0: Block, r: array<Block>, base: nat, ghost round: nat)
    returns (a: Block)
    requires r.Length > 0 && base == r.Length * round
    modifies r
    ensures Backward(Unstep(c, kek), Registers(a, r[..]), base)
      == Backward(Unstep(c, kek), Registers(a0, old(r[..])), base + r.Length)
  {
    hide Unstep, UnstepAt, Backward;
    a := a0;
    ghost var goal := Backward(Unstep(c, kek), Registers(a0, r[..]), base + r.Length);
    for index := r.Length downto 0
      invariant Backward(Unstep(c, kek), Registers(a, r[..]), base + index) == goal
    {
      BackwardOne(c, kek, Registers(a, r[..]), base, round, index);
      a := UnwrapBlock(c, kek, a, r, index, base + index + 1);
    }
  }

  method Wrap(c: Cipher, kek: seq<Byte>, data: seq<Byte>) returns (out: Option<seq<Byte>>)
    ensures out == WrapSpec(c, kek, data)
  {
    hide Step, StepAt;
    if !GoodKey(kek) || |data| < 16 || |data| % 8 != 0 || |data| > 8 * MAX_BLOCKS {
      return None;
    }
    var r := Load(data);
    var n := r.Length;
    var a: Block := IV;
    ghost var s0 := Registers(a, r[..]);
    for round := 0 to 6
      invariant Registers(a, r[..]) == Forward(Step(c, kek), s0, n * round)
    {
      a := WrapPass(c, kek, a, r, n * round, round, s0);
      assert n * round + n == n * (round + 1);
    }
    if 8 + 8 * n > MAX_UNWRAPPED {
      return None;
    }
    var tail := Concat(r);
    out := Some(a + tail);
  }

  lemma BackwardNone(c: Cipher, kek: seq<Byte>, s: State)
    ensures Backward(Unstep(c, kek), s, 0) == s
  {
  }

  method Unwrap(c: Cipher, kek: seq<Byte>, wrapped: seq<Byte>) returns (out: Option<seq<Byte>>)
    ensures out == UnwrapSpec(c, kek, wrapped)
  {
    hide Unstep, UnstepAt, Backward, Split, Join;
    if |wrapped| < 16 || |wrapped| % 8 != 0 || |wrapped| - 8 > 8 * MAX_BLOCKS || !GoodKey(kek) {
      return None;
    }
    var a: Block := wrapped[..8];
    var r := Load(wrapped[8..]);
    var n := r.Length;
    ghost var goal := Backward(Unstep(c, kek), Registers(a, r[..]), n * 6);
    for round := 6 downto 0
      invariant Backward(Unstep(c, kek), Registers(a, r[..]), n * round) == goal
    {
      assert n * round + n == n * (round + 1);
      a := UnwrapPass(c, kek, a, r, n * round, round);
    }
    BackwardNone(c, kek, Registers(a, r[..]));
    if a != IV {
      return None;
    }
    var data := Concat(r);
    out := Some(data);
  }
}
