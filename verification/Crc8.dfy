/** The bit-serial form of the checksum of lib/crc8.c, for every polynomial and both bit orders. */
module Crc8 {
  import opened Machine
  import opened Gf2

  /** Which end of a byte is shifted out first. */
  datatype Order = Msb | Lsb

  const TABLE_SIZE := 256
  const BITS: nat := 8

  // ---------- the bit-serial checksum

  function ByteXor(a: byte, b: byte): (r: byte)
    ensures r == Xor(a, b)
  {
    XorBound(a, b, 8);
    Xor(a, b)
  }

  /** The bits of a byte. */
  const MASKS: seq<bv8> := [1, 2, 4, 8, 16, 32, 64, 128]

  function BitAt(x: bv8, mask: bv8): nat {
    if x & mask != 0 then 1 else 0
  }

  function BitsOf(x: bv8): (bs: seq<nat>)
    ensures |bs| == 8 && forall j :: 0 <= j < 8 ==> bs[j] == BitAt(x, MASKS[j]) <= 1
  {
    seq(8, j requires 0 <= j < 8 => BitAt(x, MASKS[j]))
  }

  /** The number with these bits, the lowest one first. */
  function FromBits(bs: seq<nat>): nat {
    if bs == [] then 0 else bs[0] + 2 * FromBits(bs[1..])
  }

  lemma {:induction false} FromBitsXor(a: seq<nat>, b: seq<nat>, c: seq<nat>)
    requires |a| == |b| == |c|
    requires forall j :: 0 <= j < |a| ==> a[j] <= 1 && b[j] <= 1
    requires forall j :: 0 <= j < |a| ==> c[j] == if a[j] == b[j] then 0 else 1
    ensures FromBits(c) == Xor(FromBits(a), FromBits(b))
  {
    if a != [] {
      FromBitsXor(a[1..], b[1..], c[1..]);
      XorAppend(FromBits(a[1..]), a[0], FromBits(b[1..]), b[0]);
    }
  }

  predicate SingleBit(mask: bv8) {
    mask & (mask - 1) == 0
  }

  lemma BitOfXor(x: bv8, y: bv8, mask: bv8)
    requires SingleBit(mask)
    ensures BitAt(x ^ y, mask) == if BitAt(x, mask) == BitAt(y, mask) then 0 else 1
  {
    assert (x ^ y) & mask == (x & mask) ^ (y & mask);
  }

  lemma MaskIsSingle(j: nat)
    requires j < 8
    ensures SingleBit(MASKS[j])
  {
  }

  lemma BitsOfXor(x: bv8, y: bv8, z: bv8)
    requires z == x ^ y
    ensures forall j :: 0 <= j < 8 ==> BitsOf(z)[j] == if BitsOf(x)[j] == BitsOf(y)[j] then 0 else 1
  {
    forall j | 0 <= j < 8 ensures BitsOf(z)[j] == if BitsOf(x)[j] == BitsOf(y)[j] then 0 else 1 {
      MaskIsSingle(j);
      BitOfXor(x, y, MASKS[j]);
    }
  }

  lemma IntIsBits(x: bv8)
    ensures x as int
         == BitAt(x, 1) + 2 * BitAt(x, 2) + 4 * BitAt(x, 4) + 8 * BitAt(x, 8)
            + 16 * BitAt(x, 16) + 32 * BitAt(x, 32) + 64 * BitAt(x, 64) + 128 * BitAt(x, 128)
  {
  }

  lemma SumOfEight(bs: seq<nat>)
    requires |bs| == 8
    ensures
      FromBits(bs)
      == bs[0] + 2 * bs[1] + 4 * bs[2] + 8 * bs[3] + 16 * bs[4] + 32 * bs[5] + 64 * bs[6] + 128 * bs[7]
  {
    FourBits(bs, bs[4..]);
    FourBits(bs[4..], []);
  }

  lemma FourBits(bs: seq<nat>, rest: seq<nat>)
    requires |bs| >= 4 && rest == bs[4..]
    ensures FromBits(bs) == bs[0] + 2 * bs[1] + 4 * bs[2] + 8 * bs[3] + 16 * FromBits(rest)
  {
    assert bs[1..][1..] == bs[2..] && bs[2..][1..] == bs[3..] && bs[3..][1..] == bs[4..];
    assert FromBits(bs[2..]) == bs[2] + 2 * FromBits(bs[3..]);
  }

  lemma IntFromBits(x: bv8)
    ensures x as int == FromBits(BitsOf(x))
  {
    IntIsBits(x);
    SumOfEight(BitsOf(x));
  }

  /** The arithmetic definition is the bitwise operation of the source. */
  lemma XorIsBitwise(x: bv8, y: bv8)
    ensures Xor(x as int, y as int) == (x ^ y) as int
  {
    IntFromBits(x);
    IntFromBits(y);
    IntFromBits(x ^ y);
    BitsOfXor(x, y, x ^ y);
    FromBitsXor(BitsOf(x), BitsOf(y), BitsOf(x ^ y));
  }

  /** One shift of the register, reduced by the polynomial when a one falls out. */
  function Shift(o: Order, c: byte, p: byte): byte {
    if o.Msb? then ByteXor(Up(c), if c >= 128 then p else 0)
    else ByteXor(c / 2, if c % 2 == 1 then p else 0)
  }

  function Shifts(o: Order, c: byte, p: byte, n: nat): byte
    decreases n, c
  {
    if n == 0 then c else Shift(o, Shifts(o, c, p, n - 1), p)
  }

  /** The register after the eight bits of one byte. */
  function Entry(o: Order, x: byte, p: byte): byte {
    Shifts(o, x, p, BITS)
  }

  /** Every byte joins the register and is shifted out bit by bit. */
  function Serial(o: Order, data: seq<byte>, c: byte, p: byte): byte {
    if data == [] then c else Entry(o, ByteXor(Serial(o, data[..|data| - 1], c, p), data[|data| - 1]), p)
  }

  // ---------- shifting is linear

  lemma Bit(p: byte, x: bool, y: bool)
    ensures Xor(if x then p else 0, if y then p else 0) == if x != y then p else 0
  {
    XorSelf(p);
    XorZero(p);
  }

  /** A byte moved up by one bit, without the bit that leaves. */
  function Up(c: byte): (r: byte)
    ensures r == if c >= 128 then 2 * c - 256 else 2 * c
  {
    2 * c % 256
  }

  /** The top bit and the other seven of a sum. */
  lemma TopBit(c: byte, d: byte)
    ensures Xor(c, d) >= 128 <==> (c >= 128) != (d >= 128)
    ensures Up(ByteXor(c, d)) == Xor(Up(c), Up(d))
  {
    var h, k := if c >= 128 then 1 else 0, if d >= 128 then 1 else 0;
    var l, m := c - 128 * h, d - 128 * k;
    assert c == h * 128 + l && d == k * 128 + m;
    SevenBits(h, l, k, m);
    UpIs(c, h, l);
    UpIs(d, k, m);
    UpIs(ByteXor(c, d), if h != k then 1 else 0, Xor(l, m));
    XorDouble(l, m);
  }

  lemma UpIs(c: byte, h: nat, l: nat)
    requires c == h * 128 + l && h <= 1 && l < 128
    ensures Up(c) == 2 * l
  {
  }

  lemma SevenBits(h: nat, l: nat, k: nat, m: nat)
    requires h <= 1 && k <= 1 && l < 128 && m < 128
    ensures Xor(l, m) < 128 && Xor(h * 128 + l, k * 128 + m) == (if h != k then 128 else 0) + Xor(l, m)
  {
    assert Pow2(7) == 128;
    XorParts(h, l, k, m, 7);
    OneBit(h, k);
  }

  lemma OneBit(h: nat, k: nat)
    requires h <= 1 && k <= 1
    ensures Xor(h, k) == if h != k then 1 else 0
  {
    XorSelf(h);
    XorZero(h);
    XorZero(k);
  }

  lemma ShiftLinear(o: Order, c: byte, d: byte, p: byte)
    ensures Shift(o, ByteXor(c, d), p) == Xor(Shift(o, c, p), Shift(o, d, p))
  {
    if o.Msb? {
      TopBit(c, d);
      Bit(p, c >= 128, d >= 128);
      XorExchange(Up(c), if c >= 128 then p else 0, Up(d), if d >= 128 then p else 0);
    } else {
      XorHalf(c, d);
      Bit(p, c % 2 == 1, d % 2 == 1);
      XorExchange(c / 2, if c % 2 == 1 then p else 0, d / 2, if d % 2 == 1 then p else 0);
    }
  }

  lemma {:induction false} ShiftsLinear(o: Order, c: byte, d: byte, p: byte, n: nat)
    ensures Shifts(o, ByteXor(c, d), p, n) == Xor(Shifts(o, c, p, n), Shifts(o, d, p, n))
    decreases n
  {
    if n > 0 {
      ShiftsLinear(o, c, d, p, n - 1);
      ShiftLinear(o, Shifts(o, c, p, n - 1), Shifts(o, d, p, n - 1), p);
    }
  }

  lemma {:induction false} ShiftsCommute(o: Order, c: byte, p: byte, n: nat)
    ensures Shifts(o, Shift(o, c, p), p, n) == Shift(o, Shifts(o, c, p, n), p)
    decreases n
  {
    if n > 0 {
      ShiftsCommute(o, c, p, n - 1);
    }
  }

  lemma EntryLinear(o: Order, c: byte, d: byte, p: byte)
    ensures Entry(o, ByteXor(c, d), p) == Xor(Entry(o, c, p), Entry(o, d, p))
  {
    ShiftsLinear(o, c, d, p, BITS);
  }

  lemma EntryCommutes(o: Order, c: byte, p: byte)
    ensures Entry(o, Shift(o, c, p), p) == Shift(o, Entry(o, c, p), p)
  {
    ShiftsCommute(o, c, p, BITS);
  }

  lemma EntryZero(o: Order, p: byte)
    ensures Entry(o, 0, p) == 0
  {
    XorSelf(0);
    XorSelf(Entry(o, 0, p));
    EntryLinear(o, 0, 0, p);
  }

  /** The checksum of a concatenation continues from the checksum of its first part. */
  lemma {:induction false} SerialAppend(o: Order, a: seq<byte>, b: seq<byte>, c: byte, p: byte)
    ensures Serial(o, a + b, c, p) == Serial(o, b, Serial(o, a, c, p), p)
  {
    if b == [] {
      assert a + b == a;
    } else {
      var front := b[..|b| - 1];
      assert (a + b)[..|a + b| - 1] == a + front;
      SerialAppend(o, a, front, c, p);
    }
  }
}
