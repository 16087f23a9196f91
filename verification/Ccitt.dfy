/** crc16_ccitt of bootloader/rp2350/flash_program.c, bit by bit: it is the remainder of polynomial
    division by x^16 + x^12 + x^5 + 1. */
module Ccitt {
  import opened Machine
  import opened Gf2
  import C = Crc8
  import T = Crc8Theory

  const BITS: nat := 8

  /** The generating polynomial, and what is left of it without its leading one. */
  const GENERATOR: nat := 0x1_1021
  const TAIL: u16 := 0x1021

  function WordXor(a: u16, b: u16): (r: u16)
    ensures r == Xor(a, b)
  {
    WordBound(a, b);
    Xor(a, b)
  }

  lemma SixteenBits()
    ensures Pow2(16) == 0x1_0000
  {
    assert Pow2(8) == 256;
    assert Pow2(12) == 4096;
  }

  lemma WordBound(a: u16, b: u16)
    ensures Xor(a, b) < 0x1_0000
  {
    SixteenBits();
    XorBound(a, b, 16);
  }

  /** The register moved up by one bit, without the bit that leaves. */
  function Up(c: u16): (r: u16)
    ensures r == if c >= 0x8000 then 2 * c - 0x1_0000 else 2 * c
  {
    2 * c % 0x1_0000
  }

  /** The register moved up by eight bits. */
  function UpByte(c: u16): (r: u16)
    ensures r == 256 * (c % 256)
  {
    256 * c % 0x1_0000
  }

  /** One step of a 16-bit register, most significant bit first. */
  function Shift(c: u16): u16 {
    WordXor(Up(c), if c >= 0x8000 then TAIL else 0)
  }

  function Shifts(c: u16, n: nat): u16
    decreases n, c
  {
    if n == 0 then c else Shift(Shifts(c, n - 1))
  }

  /** What one byte in the upper half of the register becomes. */
  function Entry(x: byte): u16 {
    Shifts(256 * x, BITS)
  }

  /** One round of the loop, with the bit-serial form in place of the table. */
  function Step(crc: u16, b: byte): u16 {
    WordXor(UpByte(crc), Entry(C.ByteXor(crc / 256, b)))
  }

  /** crc16_ccitt of a whole buffer. */
  function Crc16(bs: seq<byte>): u16 {
    if bs == [] then 0 else Step(Crc16(bs[..|bs| - 1]), bs[|bs| - 1])
  }

  // ---------- division

  lemma WordParts(a: nat, l: u16, b: nat, m: u16)
    ensures Xor(l, m) < 0x1_0000 && Xor(0x1_0000 * a + l, 0x1_0000 * b + m) == 0x1_0000 * Xor(a, b) + Xor(l, m)
  {
    SixteenBits();
    XorParts(a, l, b, m, 16);
  }

  lemma WordJoin(a: nat, l: u16)
    ensures Xor(0x1_0000 * a, l) == 0x1_0000 * a + l
  {
    WordParts(a, 0, 0, l);
    XorZero(a);
    XorZero(l);
  }

  lemma TopAndTail(a: nat, t: u16, up: u16)
    ensures Xor(0x1_0000 * a + t, WordXor(up, t)) == 0x1_0000 * a + up
  {
    var w := WordXor(up, t);
    WordParts(a, t, 0, w);
    XorZero(a);
    XorCommutes(t, w);
    XorCancels(up, t);
  }

  lemma ShiftHigh(c: u16, up: u16)
    requires c >= 0x8000 && up == 2 * c - 0x1_0000
    ensures Shift(c) == WordXor(up, TAIL)
  {
  }

  lemma ShiftLow(c: u16)
    requires c < 0x8000
    ensures Shift(c) == 2 * c
  {
    XorZero(2 * c);
  }

  function Subtracted(c: u16): nat {
    if c >= 0x8000 then GENERATOR else 0
  }

  lemma ShiftDivides(c: u16)
    ensures Xor(Subtracted(c), Shift(c)) == 2 * c
  {
    if c >= 0x8000 {
      var up: u16 := 2 * c - 0x1_0000;
      ShiftHigh(c, up);
      TopAndTail(1, TAIL, up);
    } else {
      ShiftLow(c);
      XorZero(2 * c);
    }
  }

  lemma DivideStep(r: nat, y: u16, q: nat)
    requires q == 2 * r + if y >= 0x8000 then 1 else 0
    ensures 2 * Xor(Product(r, GENERATOR), y) == Xor(Product(q, GENERATOR), Shift(y))
  {
    var m := Product(r, GENERATOR);
    XorDouble(m, y);
    ShiftDivides(y);
    ProductStep(q, GENERATOR);
    XorAssociates(2 * m, Scaled(q, GENERATOR), Shift(y));
    XorCommutes(2 * m, Scaled(q, GENERATOR));
  }

  /** Shifting k times divides by the generator and keeps the remainder. */
  lemma {:induction false} ShiftsDivide(v: nat, q: nat, x: u16, k: nat) returns (q': nat)
    requires v == Xor(Product(q, GENERATOR), x)
    ensures v * Pow2(k) == Xor(Product(q', GENERATOR), Shifts(x, k))
    decreases k
  {
    if k == 0 {
      q' := q;
    } else {
      var r := ShiftsDivide(v, q, x, k - 1);
      var y := Shifts(x, k - 1);
      q' := 2 * r + if y >= 0x8000 then 1 else 0;
      DivideStep(r, y, q');
      T.PowerStep(v, k);
    }
  }

  lemma EightBits(w: nat)
    ensures w * Pow2(BITS) == 256 * w
  {
    assert Pow2(BITS) == 256;
  }

  lemma EntryDivides(x: byte) returns (q: nat)
    ensures 0x1_0000 * x == Xor(Product(q, GENERATOR), Entry(x))
  {
    XorZero(256 * x);
    q := ShiftsDivide(256 * x, 0, 256 * x, BITS);
    EightBits(256 * x);
  }

  /** A polynomial times x^n. */
  lemma {:induction false} ProductShifts(q: nat, g: nat, n: nat)
    ensures Product(q * Pow2(n), g) == Product(q, g) * Pow2(n)
    decreases n
  {
    if n > 0 {
      var p := q * Pow2(n - 1);
      ProductShifts(q, g, n - 1);
      T.PowerStep(q, n);
      T.PowerStep(Product(q, g), n);
      ProductStep(2 * p, g);
      XorZero(2 * Product(p, g));
    }
  }

  lemma TimesByte(q: nat, g: nat)
    ensures Product(256 * q, g) == 256 * Product(q, g)
  {
    ProductShifts(q, g, BITS);
    EightBits(q);
    EightBits(Product(q, g));
  }

  lemma ByteScale(a: nat, b: nat)
    ensures Xor(256 * a, 256 * b) == 256 * Xor(a, b)
  {
    T.ByteParts(a, 0, b, 0);
    XorZero(0);
  }

  lemma WordScale(a: nat, b: nat)
    ensures Xor(0x1_0000 * a, 0x1_0000 * b) == 0x1_0000 * Xor(a, b)
  {
    WordParts(a, 0, b, 0);
    XorZero(0);
  }

  lemma Regroup(p: nat, h: nat, l: nat, b: nat)
    ensures Xor(Xor(p, Xor(h, l)), b) == Xor(p, Xor(Xor(h, b), l))
  {
    XorAssociates(p, Xor(h, l), b);
    XorAssociates(h, l, b);
    XorCommutes(l, b);
    XorAssociates(h, b, l);
  }

  /** What is in the register moves up by a byte: its upper half leaves and meets the next byte, the
      lower half stays. */
  lemma RegisterMoves(p: nat, s: u16, h: byte, l: byte, b: byte)
    requires s == 256 * h + l
    ensures
      Xor(256 * Xor(p, s), 0x1_0000 * b) == Xor(256 * p, Xor(0x1_0000 * Xor(h, b), 256 * l))
  {
    ByteScale(p, s);
    WordJoin(h, 256 * l);
    Regroup(256 * p, 0x1_0000 * h, 256 * l, 0x1_0000 * b);
    WordScale(h, b);
  }

  /** The next byte joins the number. */
  lemma NumberMoves(v: nat, b: byte)
    ensures 0x1_0000 * (256 * v + b) == Xor(256 * (0x1_0000 * v), 0x1_0000 * b)
  {
    T.ByteJoin(v, b);
    WordScale(256 * v, b);
  }

  /** The upper half and the next byte are divided once more. */
  lemma QuotientGrows(p: nat, e: nat, r: nat, low: nat, q: nat)
    requires p == 256 * Product(q, GENERATOR)
    ensures Xor(p, Xor(Xor(Product(r, GENERATOR), e), low)) == Xor(Product(Xor(256 * q, r), GENERATOR), Xor(low, e))
  {
    var d := Product(r, GENERATOR);
    TimesByte(q, GENERATOR);
    ProductAdds(256 * q, r, GENERATOR);
    XorAssociates(d, e, low);
    XorCommutes(e, low);
    XorAssociates(p, d, Xor(low, e));
  }

  lemma StepDivides(v: nat, q: nat, s: u16, b: byte) returns (q': nat)
    requires 0x1_0000 * v == Xor(Product(q, GENERATOR), s)
    ensures 0x1_0000 * (256 * v + b) == Xor(Product(q', GENERATOR), Step(s, b))
  {
    var p, h, l := Product(q, GENERATOR), s / 256, s % 256;
    var x := C.ByteXor(h, b);
    var r := EntryDivides(x);
    NumberMoves(v, b);
    RegisterMoves(p, s, h, l, b);
    QuotientGrows(256 * p, Entry(x), r, 256 * l, q);
    q' := Xor(256 * q, r);
    StepIs(s, b, x, l);
  }

  lemma StepIs(s: u16, b: byte, x: byte, l: byte)
    requires x == C.ByteXor(s / 256, b) && l == s % 256
    ensures Step(s, b) == Xor(256 * l, Entry(x))
  {
  }

  lemma {:induction false} CrcDivides(bs: seq<byte>) returns (q: nat)
    ensures 0x1_0000 * T.Number(bs) == Xor(Product(q, GENERATOR), Crc16(bs))
  {
    if bs == [] {
      q := 0;
      XorZero(0);
    } else {
      var front, last := bs[..|bs| - 1], bs[|bs| - 1];
      var r := CrcDivides(front);
      q := StepDivides(T.Number(front), r, Crc16(front), last);
    }
  }

  /** The message with two zero bytes behind it leaves r when it is divided. */
  ghost predicate Leaves(bs: seq<byte>, r: nat) {
    exists q: nat :: T.Number(bs) * 0x1_0000 == Xor(Product(q, 0x1_1021), r)
  }

  /** The checksum is the one remainder of the message, with two zero bytes behind it, divided by
      x^16 + x^12 + x^5 + 1. */
  lemma CrcIsRemainder(bs: seq<byte>, r: u16)
    ensures (exists q: nat :: T.Number(bs) * 0x1_0000 == Xor(Product(q, 0x1_1021), r)) <==> r == Crc16(bs)
    ensures Leaves(bs, r) <==> r == Crc16(bs)
  {
    var q := CrcDivides(bs);
    assert T.Number(bs) * 0x1_0000 == Xor(Product(q, 0x1_1021), Crc16(bs));
    if q': nat :| T.Number(bs) * 0x1_0000 == Xor(Product(q', 0x1_1021), r) {
      SixteenBits();
      RemainderUnique(q, Crc16(bs), q', r, 0x1_1021, 16);
    }
  }
}
