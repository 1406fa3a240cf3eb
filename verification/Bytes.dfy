/** Octets as integers, and the fixed-width integer encodings of the stores. */
module Bytes {
  type Byte = x: int | 0 <= x < 256

  const U16 := 0x1_0000
  const U32 := 0x1_0000_0000
  const U64 := 0x1_0000_0000_0000_0000

  /** Little-endian encoding in `width` octets (`to_le_bytes`). */
  function ToLE(value: nat, width: nat): (s: seq<Byte>)
    ensures |s| == width
    decreases width
  {
    if width == 0 then [] else [value % 256] + ToLE(value / 256, width - 1)
  }

  function FromLE(s: seq<Byte>): nat
  {
    if s == [] then 0 else s[0] + 256 * FromLE(s[1..])
  }

  function Power256(n: nat): (r: nat)
    ensures r >= 1
  {
    if n == 0 then 1 else 256 * Power256(n - 1)
  }

  lemma {:induction false} LERoundTrip(value: nat, width: nat)
    requires value < Power256(width)
    ensures FromLE(ToLE(value, width)) == value
    decreases width
  {
    if width > 0 {
      LERoundTrip(value / 256, width - 1);
      assert ToLE(value, width)[1..] == ToLE(value / 256, width - 1);
    }
  }

  /** Big-endian encoding in `width` octets (`to_be_bytes`). */
  function ToBE(value: nat, width: nat): (s: seq<Byte>)
    ensures |s| == width
    decreases width
  {
    if width == 0 then [] else ToBE(value / 256, width - 1) + [value % 256]
  }

  function FromBE(s: seq<Byte>): nat
  {
    if s == [] then 0 else 256 * FromBE(s[..|s| - 1]) + s[|s| - 1]
  }

  lemma {:induction false} BERoundTrip(value: nat, width: nat)
    requires value < Power256(width)
    ensures FromBE(ToBE(value, width)) == value
    decreases width
  {
    if width > 0 {
      BERoundTrip(value / 256, width - 1);
      var s := ToBE(value, width);
      assert s[..|s| - 1] == ToBE(value / 256, width - 1);
    }
  }

  lemma {:induction false} FromBEBound(s: seq<Byte>)
    ensures FromBE(s) < Power256(|s|)
  {
    if s != [] { FromBEBound(s[..|s| - 1]); }
  }

  lemma {:induction false} BEInverse(s: seq<Byte>)
    ensures ToBE(FromBE(s), |s|) == s
  {
    if s != [] {
      var front := s[..|s| - 1];
      BEInverse(front);
      assert FromBE(s) / 256 == FromBE(front) && FromBE(s) % 256 == s[|s| - 1];
      assert s == front + [s[|s| - 1]];
    }
  }

  /** Four big-endian octets, written out. */
  lemma FourOctets(s: seq<Byte>)
    requires |s| == 4
    ensures FromBE(s) == 0x100_0000 * (s[0] as int) + 0x1_0000 * (s[1] as int) + 0x100 * (s[2] as int) + s[3]
  {
    var a, b, c := s[..3], s[..2], s[..1];
    assert a[..2] == b && b[..1] == c && c[..0] == [];
    assert FromBE(c) == s[0];
    assert FromBE(b) == 256 * FromBE(c) + s[1];
    assert FromBE(a) == 256 * FromBE(b) + s[2];
  }

  /** Four little-endian octets, written out. */
  lemma FourOctetsLE(s: seq<Byte>)
    requires |s| == 4
    ensures FromLE(s) == s[0] as int + 0x100 * (s[1] as int) + 0x1_0000 * (s[2] as int) + 0x100_0000 * (s[3] as int)
  {
    var a, b, c := s[1..], s[2..], s[3..];
    assert a[1..] == b && b[1..] == c && c[1..] == [];
    assert FromLE(c) == s[3];
    assert FromLE(b) == s[2] + 256 * FromLE(c);
    assert FromLE(a) == s[1] + 256 * FromLE(b);
  }

  /** The value of a big-endian 16-bit field. */
  function U16Of(hi: Byte, lo: Byte): (v: nat)
    ensures v < U16
  {
    var h: int := hi;
    256 * h + lo
  }

  lemma PowerTable()
    ensures Power256(1) == 256 && Power256(2) == U16 && Power256(4) == U32 && Power256(8) == U64
  {
    assert Power256(2) == 256 * Power256(1);
    assert Power256(3) == 256 * Power256(2);
    assert Power256(4) == 256 * Power256(3);
    assert Power256(5) == 256 * Power256(4);
    assert Power256(6) == 256 * Power256(5);
    assert Power256(7) == 256 * Power256(6);
    assert Power256(8) == 256 * Power256(7);
  }

  /** The middle part of three is where its neighbours leave it. */
  lemma Middle(a: seq<Byte>, b: seq<Byte>, c: seq<Byte>)
    ensures (a + b) + c == a + (b + c)
    ensures ((a + b) + c)[|a|..|a| + |b|] == b
  {
  }

  // ----- fixed-width fields ----------------------------------------------------

  function Zeros(n: nat): (s: seq<Byte>)
    ensures |s| == n
  {
    seq(n, i => 0)
  }

  /** A field of fixed width, zero filled. */
  function Fixed(value: seq<Byte>, width: nat): (s: seq<Byte>)
    requires |value| <= width
    ensures |s| == width && s[..|value|] == value
  {
    value + Zeros(width - |value|)
  }

  /** Zeros in front do not change a big-endian number. */
  lemma {:induction false} LeadingZeros(n: nat, s: seq<Byte>)
    ensures FromBE(Zeros(n) + s) == FromBE(s)
    decreases n + |s|
  {
    var t := Zeros(n) + s;
    if s != [] {
      LeadingZeros(n, s[..|s| - 1]);
      assert t[..|t| - 1] == Zeros(n) + s[..|s| - 1];
    } else if n > 0 {
      LeadingZeros(n - 1, []);
      assert t[..|t| - 1] == Zeros(n - 1) + [];
    }
  }

  /** Octets of a given length are the encoding of their number, and of no other. */
  lemma BEUnique(s: seq<Byte>, value: nat, width: nat)
    requires |s| == width && FromBE(s) == value
    ensures s == ToBE(value, width)
  {
    BEInverse(s);
  }

  // ----- exclusive or ----------------------------------------------------------

  function Power2(k: nat): nat { if k == 0 then 1 else 2 * Power2(k - 1) }

  /** The exclusive or of the low `k` bits of two numbers. */
  function XorBits(x: nat, y: nat, k: nat): (z: nat)
    ensures z < Power2(k)
    decreases k
  {
    if k == 0 then 0 else 2 * XorBits(x / 2, y / 2, k - 1) + (x + y) % 2
  }

  lemma HalfOf(h: nat, b: nat)
    requires b < 2
    ensures (2 * h + b) / 2 == h && (2 * h + b) % 2 == b
  {
  }

  lemma BitCancel(h: nat, x: nat, y: nat)
    ensures (2 * h + (x + y) % 2 + y) % 2 == x % 2
  {
  }

  lemma {:induction false} XorBitsCancel(x: nat, y: nat, k: nat)
    requires x < Power2(k)
    ensures XorBits(XorBits(x, y, k), y, k) == x
    decreases k
  {
    if k > 0 {
      var h := XorBits(x / 2, y / 2, k - 1);
      HalfOf(h, (x + y) % 2);
      BitCancel(h, x, y);
      XorBitsCancel(x / 2, y / 2, k - 1);
    }
  }

  lemma Power2Table()
    ensures Power2(8) == 256
  {
    assert Power2(4) == 16;
    assert Power2(8) == 16 * Power2(4) by {
      assert Power2(5) == 2 * Power2(4) && Power2(6) == 2 * Power2(5);
      assert Power2(7) == 2 * Power2(6) && Power2(8) == 2 * Power2(7);
    }
  }

  function Xor(x: Byte, y: Byte): Byte
  {
    Power2Table();
    XorBits(x, y, 8)
  }

  lemma XorCancel(x: Byte, y: Byte)
    ensures Xor(Xor(x, y), y) == x
  {
    Power2Table();
    XorBitsCancel(x, y, 8);
  }

  /** Bit `i` of a number, the lowest being bit 0. */
  function Bit(x: nat, i: nat): nat { if i == 0 then x % 2 else Bit(x / 2, i - 1) }

  /** Bit `i` of an exclusive or is the sum without carry of the two bits. */
  lemma {:induction false} XorBitAt(x: nat, y: nat, k: nat, i: nat)
    requires i < k
    ensures Bit(XorBits(x, y, k), i) == (Bit(x, i) + Bit(y, i)) % 2
    decreases k
  {
    var h, b := XorBits(x / 2, y / 2, k - 1), (x + y) % 2;
    HalfOf(h, b);
    if i == 0 {
      Parity(x, y);
    } else {
      XorBitAt(x / 2, y / 2, k - 1, i - 1);
    }
  }

  lemma MulAtLeast(d: nat, k: nat)
    requires k >= 1
    ensures d * k >= d
  {
  }

  lemma DivUnique(x: nat, d: nat, q: nat, r: nat)
    requires d > 0 && x == d * q + r && r < d
    ensures x / d == q
  {
    var q', r' := x / d, x % d;
    assert x == d * q' + r';
    if q' < q { MulAtLeast(d, q - q'); }
    if q' > q { MulAtLeast(d, q' - q); }
  }

  lemma Parity(x: nat, y: nat)
    ensures (x + y) % 2 == 0 <==> x % 2 == y % 2
  {
  }

  lemma {:induction false} XorBitsZero(x: nat, y: nat, k: nat)
    requires x < Power2(k) && y < Power2(k)
    ensures XorBits(x, y, k) == 0 <==> x == y
    decreases k
  {
    if k > 0 {
      XorBitsZero(x / 2, y / 2, k - 1);
      Parity(x, y);
      assert x == 2 * (x / 2) + x % 2 && y == 2 * (y / 2) + y % 2;
    }
  }

  lemma XorZero(x: Byte, y: Byte)
    ensures Xor(x, y) == 0 <==> x == y
  {
    Power2Table();
    XorBitsZero(x, y, 8);
  }

  /** The exclusive or of octets, bit by bit. */
  lemma XorIsBitwise(x: Byte, y: Byte, i: nat)
    requires i < 8
    ensures Bit(Xor(x, y), i) == (Bit(x, i) + Bit(y, i)) % 2
  {
    XorBitAt(x, y, 8, i);
  }

  lemma XorWithZero(x: Byte)
    ensures Xor(0, x) == x
  {
    XorZero(x, x);
    XorCancel(x, x);
  }

  /** Octet-wise exclusive or with a mask at least as long as the text. */
  function XorSeq(s: seq<Byte>, mask: seq<Byte>): (r: seq<Byte>)
    requires |mask| >= |s|
    ensures |r| == |s|
  {
    seq(|s|, i requires 0 <= i < |s| => Xor(s[i], mask[i]))
  }

  lemma XorSeqCancel(s: seq<Byte>, mask: seq<Byte>)
    requires |mask| >= |s|
    ensures XorSeq(XorSeq(s, mask), mask) == s
  {
    hide Xor;
    forall i | 0 <= i < |s| ensures XorSeq(XorSeq(s, mask), mask)[i] == s[i] {
      XorCancel(s[i], mask[i]);
    }
  }
}
