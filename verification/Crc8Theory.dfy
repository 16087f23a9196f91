/** What the checksum of lib/crc8.c means: it is the remainder of polynomial division, and it
    detects every change of a single byte exactly when the polynomial has a constant term. */
module Crc8Theory {
  import opened Machine
  import opened Gf2
  import opened Crc8

  // ---------- polynomial division

  /** The generator: the coefficients in p under an implicit leading one. */
  function Generator(p: byte): nat {
    256 + p
  }

  /** The bytes as one number, the first byte on top. */
  function Number(data: seq<byte>): nat {
    if data == [] then 0 else 256 * Number(data[..|data| - 1]) + data[|data| - 1]
  }

  /** The message followed by a zero byte, its front combined with the seed. */
  function Dividend(data: seq<byte>, c: byte): nat {
    if data == [] then c else 256 * Xor(Dividend(data[..|data| - 1], c), data[|data| - 1])
  }

  lemma ByteParts(a: nat, l: byte, b: nat, m: byte)
    ensures Xor(l, m) < 256 && Xor(256 * a + l, 256 * b + m) == 256 * Xor(a, b) + Xor(l, m)
  {
    assert Pow2(8) == 256;
    XorParts(a, l, b, m, 8);
  }

  lemma ByteJoin(a: nat, l: byte)
    ensures Xor(256 * a, l) == 256 * a + l
  {
    ByteParts(a, 0, 0, l);
    XorZero(a);
    XorZero(l);
  }

  lemma ShiftDivides(c: byte, p: byte)
    ensures Xor(if c >= 128 then Generator(p) else 0, Shift(Msb, c, p)) == 2 * c
  {
    if c >= 128 {
      ByteJoin(1, p);
      XorExchange(256, p, Up(c), p);
      XorSelf(p);
      ByteJoin(1, Up(c));
      XorZero(2 * c);
    } else {
      XorZero(2 * c);
    }
  }

  /** Shifting k times divides by the generator and keeps the remainder. */
  lemma {:induction false} ShiftsDivide(v: nat, q: nat, x: byte, p: byte, k: nat) returns (q': nat)
    requires v == Xor(Product(q, Generator(p)), x)
    ensures v * Pow2(k) == Xor(Product(q', Generator(p)), Shifts(Msb, x, p, k))
    decreases k
  {
    if k == 0 {
      q' := q;
    } else {
      var r := ShiftsDivide(v, q, x, p, k - 1);
      var y := Shifts(Msb, x, p, k - 1);
      q' := 2 * r + if y >= 128 then 1 else 0;
      DivideStep(r, y, p, q');
      PowerStep(v, k);
    }
  }

  lemma PowerStep(v: nat, k: nat)
    requires k > 0
    ensures v * Pow2(k) == 2 * (v * Pow2(k - 1))
  {
    assert v * (2 * Pow2(k - 1)) == 2 * (v * Pow2(k - 1));
  }

  lemma DivideStep(r: nat, y: byte, p: byte, q: nat)
    requires q == 2 * r + if y >= 128 then 1 else 0
    ensures 2 * Xor(Product(r, Generator(p)), y) == Xor(Product(q, Generator(p)), Shift(Msb, y, p))
  {
    var g := Generator(p);
    var m := Product(r, g);
    XorDouble(m, y);
    ShiftDivides(y, p);
    ProductStep(q, g);
    XorAssociates(2 * m, Scaled(q, g), Shift(Msb, y, p));
    XorCommutes(2 * m, Scaled(q, g));
  }

  /** The checksum is what division by the generator leaves. */
  lemma {:induction false} SerialDivides(data: seq<byte>, c: byte, p: byte) returns (q: nat)
    ensures Dividend(data, c) == Xor(Product(q, Generator(p)), Serial(Msb, data, c, p))
  {
    if data == [] {
      q := 0;
      XorZero(c);
    } else {
      var front, last := data[..|data| - 1], data[|data| - 1];
      var r := SerialDivides(front, c, p);
      q := ByteDivides(Dividend(front, c), r, Serial(Msb, front, c, p), last, p);
    }
  }

  lemma ByteDivides(v: nat, r: nat, s: byte, last: byte, p: byte) returns (q: nat)
    requires v == Xor(Product(r, Generator(p)), s)
    ensures 256 * Xor(v, last) == Xor(Product(q, Generator(p)), Entry(Msb, ByteXor(s, last), p))
  {
    var w := Xor(v, last);
    XorAssociates(Product(r, Generator(p)), s, last);
    q := ShiftsDivide(w, r, ByteXor(s, last), p, BITS);
    EightBits(w);
  }

  lemma EightBits(w: nat)
    ensures w * Pow2(BITS) == 256 * w
  {
    assert Pow2(BITS) == 256;
  }

  ghost predicate IsRemainder(r: nat, v: nat, g: nat) {
    r < 256 && exists q: nat :: v == Xor(Product(q, g), r)
  }

  /** The checksum is the only remainder of the division. */
  lemma SerialIsRemainder(data: seq<byte>, c: byte, p: byte, r: nat)
    ensures IsRemainder(r, Dividend(data, c), Generator(p)) <==> r == Serial(Msb, data, c, p)
  {
    var q := SerialDivides(data, c, p);
    var g, s := Generator(p), Serial(Msb, data, c, p);
    assert Dividend(data, c) == Xor(Product(q, g), s);
    if IsRemainder(r, Dividend(data, c), g) {
      var q' :| Dividend(data, c) == Xor(Product(q', g), r);
      assert Pow2(8) == 256;
      RemainderUnique(q, s, q', r, g, 8);
    }
  }

  /** Without a seed the dividend is the message with a zero byte behind it. */
  lemma {:induction false} DividendIsNumber(data: seq<byte>)
    ensures Dividend(data, 0) == 256 * Number(data)
  {
    if data != [] {
      DividendIsNumber(data[..|data| - 1]);
      ByteJoin(Number(data[..|data| - 1]), data[|data| - 1]);
    }
  }

  /** Two messages of one length, from one seed: only their difference matters. */
  lemma {:induction false} DividendDifference(a: seq<byte>, b: seq<byte>, c: byte)
    requires |a| == |b|
    ensures Xor(Dividend(a, c), Dividend(b, c)) == 256 * Xor(Number(a), Number(b))
  {
    if a == [] {
      XorSelf(c);
    } else {
      var f, g := a[..|a| - 1], b[..|b| - 1];
      DividendDifference(f, g, c);
      DifferenceStep(Dividend(f, c), Dividend(g, c), Number(f), Number(g), a[|a| - 1], b[|b| - 1]);
    }
  }

  lemma DifferenceStep(d: nat, e: nat, m: nat, n: nat, x: byte, y: byte)
    requires Xor(d, e) == 256 * Xor(m, n)
    ensures Xor(256 * Xor(d, x), 256 * Xor(e, y)) == 256 * Xor(256 * m + x, 256 * n + y)
  {
    XorSelf(0);
    ByteParts(Xor(d, x), 0, Xor(e, y), 0);
    XorExchange(d, x, e, y);
    ByteParts(m, x, n, y);
    ByteJoin(Xor(m, n), Xor(x, y));
  }

  /** A change goes unnoticed exactly when the generator divides it. */
  lemma UnnoticedExactly(a: seq<byte>, b: seq<byte>, c: byte, p: byte)
    requires |a| == |b|
    ensures Serial(Msb, a, c, p) == Serial(Msb, b, c, p) <==>
            IsRemainder(0, 256 * Xor(Number(a), Number(b)), Generator(p))
  {
    var g, s, t := Generator(p), Serial(Msb, a, c, p), Serial(Msb, b, c, p);
    var q := SerialDivides(a, c, p);
    var r := SerialDivides(b, c, p);
    DividendDifference(a, b, c);
    XorExchange(Product(q, g), s, Product(r, g), t);
    ProductAdds(q, r, g);
    var v := 256 * Xor(Number(a), Number(b));
    assert v == Xor(Product(Xor(q, r), g), Xor(s, t));
    XorIsZero(s, t);
    if IsRemainder(0, v, g) {
      var q' :| v == Xor(Product(q', g), 0);
      assert Pow2(8) == 256;
      XorBound(s, t, 8);
      RemainderUnique(Xor(q, r), Xor(s, t), q', 0, g, 8);
    }
  }

  // ---------- a change of one byte

  /** The polynomial's constant term, wherever the bit order puts it. */
  predicate HasConstant(o: Order, p: byte) {
    if o.Msb? then p % 2 == 1 else p >= 128
  }

  lemma ShiftInjective(o: Order, x: byte, y: byte, p: byte)
    requires HasConstant(o, p) && Shift(o, x, p) == Shift(o, y, p)
    ensures x == y
  {
    var e := ByteXor(x, y);
    ShiftLinear(o, x, y, p);
    XorSelf(Shift(o, x, p));
    XorIsZero(x, y);
    if o.Msb? {
      XorIsZero(Up(e), if e >= 128 then p else 0);
    } else {
      XorIsZero(e / 2, if e % 2 == 1 then p else 0);
    }
  }

  lemma {:induction false} ShiftsInjective(o: Order, x: byte, y: byte, p: byte, n: nat)
    requires HasConstant(o, p) && Shifts(o, x, p, n) == Shifts(o, y, p, n)
    ensures x == y
    decreases n
  {
    if n > 0 {
      ShiftInjective(o, Shifts(o, x, p, n - 1), Shifts(o, y, p, n - 1), p);
      ShiftsInjective(o, x, y, p, n - 1);
    }
  }

  lemma XorInjective(c: byte, x: byte, y: byte)
    requires Xor(c, x) == Xor(c, y)
    ensures x == y
  {
    XorCommutes(c, x);
    XorCommutes(c, y);
    XorCancels(x, c);
    XorCancels(y, c);
  }

  lemma {:induction false} SerialInjective(o: Order, data: seq<byte>, c: byte, d: byte, p: byte)
    requires HasConstant(o, p) && Serial(o, data, c, p) == Serial(o, data, d, p)
    ensures c == d
  {
    if data != [] {
      var front, last := data[..|data| - 1], data[|data| - 1];
      var s, t := Serial(o, front, c, p), Serial(o, front, d, p);
      ShiftsInjective(o, ByteXor(s, last), ByteXor(t, last), p, BITS);
      XorCancels(s, last);
      XorCancels(t, last);
      SerialInjective(o, front, c, d, p);
    }
  }

  lemma OneByte(o: Order, a: seq<byte>, x: byte, b: seq<byte>, c: byte, p: byte)
    ensures Serial(o, a + [x] + b, c, p) == Serial(o, b, Entry(o, ByteXor(Serial(o, a, c, p), x), p), p)
  {
    SerialAppend(o, a + [x], b, c, p);
    assert (a + [x])[..|a|] == a;
  }

  /** With a constant term every change of one byte is noticed. */
  lemma OneByteNoticed(o: Order, a: seq<byte>, x: byte, y: byte, b: seq<byte>, c: byte, p: byte)
    requires HasConstant(o, p) && x != y
    ensures Serial(o, a + [x] + b, c, p) != Serial(o, a + [y] + b, c, p)
  {
    var s := Serial(o, a, c, p);
    OneByte(o, a, x, b, c, p);
    OneByte(o, a, y, b, c, p);
    if Serial(o, a + [x] + b, c, p) == Serial(o, a + [y] + b, c, p) {
      SerialInjective(o, b, Entry(o, ByteXor(s, x), p), Entry(o, ByteXor(s, y), p), p);
      ShiftsInjective(o, ByteXor(s, x), ByteXor(s, y), p, BITS);
      XorInjective(s, x, y);
    }
  }

  /** Without one, two bytes are shifted to the same register. */
  lemma SameShift(o: Order, p: byte) returns (x: byte, y: byte)
    requires !HasConstant(o, p)
    ensures x != y && Shift(o, x, p) == Shift(o, y, p)
  {
    XorZero(p);
    if o.Msb? {
      x, y := 128, p / 2;
      assert Up(x) == 0 && Up(y) == p;
    } else {
      x, y := 1, 2 * p;
      assert x / 2 == 0 && y / 2 == p && y % 2 == 0;
    }
  }

  lemma {:induction false} SameShifts(o: Order, x: byte, y: byte, p: byte, n: nat)
    requires n > 0 && Shift(o, x, p) == Shift(o, y, p)
    ensures Shifts(o, x, p, n) == Shifts(o, y, p, n)
    decreases n
  {
    if n > 1 {
      SameShifts(o, x, y, p, n - 1);
    }
  }

  /** At every position of every message: all changes of that byte are noticed exactly when the
      polynomial has a constant term. */
  lemma OneByteExactly(o: Order, a: seq<byte>, b: seq<byte>, c: byte, p: byte)
    ensures HasConstant(o, p) <==>
            forall x: byte, y: byte :: x != y ==> Serial(o, a + [x] + b, c, p) != Serial(o, a + [y] + b, c, p)
  {
    if HasConstant(o, p) {
      forall x: byte, y: byte | x != y
        ensures Serial(o, a + [x] + b, c, p) != Serial(o, a + [y] + b, c, p)
      {
        OneByteNoticed(o, a, x, y, b, c, p);
      }
    } else {
      var s := Serial(o, a, c, p);
      var x, y := SameShift(o, p);
      SameShifts(o, x, y, p, BITS);
      var x', y' := ByteXor(s, x), ByteXor(s, y);
      XorUndone(s, x);
      XorUndone(s, y);
      OneByte(o, a, x', b, c, p);
      OneByte(o, a, y', b, c, p);
      assert x' != y' && Serial(o, a + [x'] + b, c, p) == Serial(o, a + [y'] + b, c, p);
    }
  }

  lemma XorUndone(s: byte, x: byte)
    ensures ByteXor(s, ByteXor(s, x)) == x
  {
    XorCommutes(s, x);
    XorCommutes(s, Xor(x, s));
    XorCancels(x, s);
  }

  // ---------- the other bit order

  datatype Bits2 = Bits2(rest: nat, out: nat)

  /** n bits of `rest` move to `out`, the lowest bit first. */
  function Move(b: Bits2, n: nat): Bits2
    decreases n, b
  {
    if n == 0 then b else Move(MoveOne(b), n - 1)
  }

  function MoveOne(b: Bits2): Bits2 {
    Bits2(b.rest / 2, 2 * b.out + b.rest % 2)
  }

  function Swap(b: Bits2): Bits2 {
    Bits2(b.out, b.rest)
  }

  lemma {:induction false} MoveEmpties(b: Bits2, n: nat, m: nat)
    requires b.rest < Pow2(n) && b.out < Pow2(m)
    ensures Move(b, n).rest == 0 && Move(b, n).out < Pow2(n + m)
    decreases n
  {
    if n > 0 {
      MoveEmpties(MoveOne(b), n - 1, m + 1);
    }
  }

  lemma {:induction false} MoveLast(b: Bits2, n: nat)
    ensures Move(b, n + 1) == MoveOne(Move(b, n))
    decreases n
  {
    if n > 0 {
      MoveLast(MoveOne(b), n - 1);
    }
  }

  /** Moving back undoes moving. */
  lemma {:induction false} MoveBack(b: Bits2, n: nat)
    ensures Move(Swap(Move(b, n)), n) == Swap(b)
    decreases n
  {
    if n > 0 {
      var c := MoveOne(b);
      MoveBack(c, n - 1);
      MoveLast(Swap(Move(c, n - 1)), n - 1);
      assert MoveOne(Swap(c)) == Swap(b);
    }
  }

  function Sum(a: Bits2, b: Bits2): Bits2 {
    Bits2(Xor(a.rest, b.rest), Xor(a.out, b.out))
  }

  lemma MoveOneAdds(a: Bits2, b: Bits2)
    ensures MoveOne(Sum(a, b)) == Sum(MoveOne(a), MoveOne(b))
  {
    XorHalf(a.rest, b.rest);
    XorAppend(a.out, a.rest % 2, b.out, b.rest % 2);
  }

  lemma {:induction false} MoveAdds(a: Bits2, b: Bits2, c: Bits2, n: nat)
    requires c == Sum(a, b)
    ensures Move(c, n) == Sum(Move(a, n), Move(b, n))
    decreases n
  {
    if n > 0 {
      MoveOneAdds(a, b);
      MoveAdds(MoveOne(a), MoveOne(b), MoveOne(c), n - 1);
    }
  }

  lemma {:induction false} MoveWider(x: nat, y: nat, n: nat)
    requires x < Pow2(n)
    ensures Move(Bits2(x, y), n + 1) == Bits2(0, 2 * Move(Bits2(x, y), n).out)
    decreases n
  {
    if n > 0 {
      MoveWider(x / 2, 2 * y + x % 2, n - 1);
    }
  }

  /** The bit that moves first ends on top. */
  lemma {:induction false} MoveFirst(x: nat, y: nat, n: nat)
    ensures Move(Bits2(x, y), n).out == y * Pow2(n) + Move(Bits2(x, 0), n).out
    decreases n
  {
    if n > 0 {
      MoveFirst(x / 2, 2 * y + x % 2, n - 1);
      MoveFirst(x / 2, x % 2, n - 1);
      Spread(y, x % 2, Pow2(n - 1));
    }
  }

  lemma Spread(y: nat, b: nat, k: nat)
    ensures (2 * y + b) * k == y * (2 * k) + b * k
  {
  }

  /** The byte with its bits in reverse. */
  function Mirror(x: byte): byte {
    EightBits(1);
    MoveEmpties(Bits2(x, 0), BITS, 0);
    Move(Bits2(x, 0), BITS).out
  }

  function Mirrors(data: seq<byte>): seq<byte> {
    if data == [] then [] else Mirrors(data[..|data| - 1]) + [Mirror(data[|data| - 1])]
  }

  lemma MirrorTwice(x: byte)
    ensures Mirror(Mirror(x)) == x
  {
    EightBits(1);
    MoveEmpties(Bits2(x, 0), BITS, 0);
    MoveBack(Bits2(x, 0), BITS);
  }

  lemma MirrorAdds(x: byte, y: byte)
    ensures Mirror(ByteXor(x, y)) == Xor(Mirror(x), Mirror(y))
  {
    XorZero(0);
    MoveAdds(Bits2(x, 0), Bits2(y, 0), Bits2(Xor(x, y), 0), BITS);
  }

  /** The lowest bit ends on top; the other seven are those of the half. */
  lemma MirrorIs(c: byte, h: byte, n: nat, x: nat)
    requires h == c / 2 && n == BITS - 1 && x == Move(Bits2(h, 0), n).out
    ensures x < 128 && Mirror(c) == (c % 2) * 128 + x && Mirror(h) == 2 * x
  {
    assert Pow2(7) == 128;
    MoveWider(h, 0, n);
    MoveEmpties(Bits2(h, 0), n, 0);
    MoveFirst(h, c % 2, n);
    assert MoveOne(Bits2(c, 0)) == Bits2(h, c % 2);
    assert Move(Bits2(c, 0), n + 1) == Move(Bits2(h, c % 2), n);
  }

  lemma MirrorParts(c: byte, h: byte, n: nat)
    requires h == c / 2 && n == BITS - 1
    ensures Mirror(c) >= 128 <==> c % 2 == 1
    ensures Up(Mirror(c)) == Mirror(h)
  {
    var x := Move(Bits2(h, 0), n).out;
    MirrorIs(c, h, n, x);
    UpIs(Mirror(c), c % 2, x);
  }

  lemma MirrorShift(c: byte, m: byte, p: byte, q: byte)
    requires m == Mirror(c) && q == Mirror(p)
    ensures Mirror(Shift(Lsb, c, p)) == Shift(Msb, m, q)
  {
    var x: byte := if c % 2 == 1 then p else 0;
    var h: byte, z: byte := c / 2, 0;
    MirrorParts(c, h, BITS - 1);
    MirrorAdds(h, x);
    MirrorZero(p, z);
    ShiftsMeet(Mirror, c, h, m, p, q, x, z, ByteXor(h, x));
  }

  lemma MirrorZero(p: byte, z: byte)
    requires z == 0
    ensures Mirror(z) == 0
  {
    MirrorSelf(p);
  }

  /** The same for any linear map in place of the mirror image. */
  lemma ShiftsMeet(f: byte -> byte, c: byte, h: byte, m: byte, p: byte, q: byte, x: byte, z: byte, s: byte)
    requires h == c / 2 && x == (if c % 2 == 1 then p else z) && z == 0 && s == ByteXor(h, x)
    requires (m >= 128 <==> c % 2 == 1) && f(h) == Up(m) && q == f(p) && f(z) == 0
    requires f(s) == Xor(f(h), f(x))
    ensures f(Shift(Lsb, c, p)) == Shift(Msb, m, q)
  {
    LsbShift(c, p, x);
    MsbShift(m, q, f(h), f(x));
  }

  lemma LsbShift(c: byte, p: byte, x: byte)
    requires x == if c % 2 == 1 then p else 0
    ensures Shift(Lsb, c, p) == ByteXor(c / 2, x)
  {
  }

  lemma MsbShift(m: byte, q: byte, u: byte, y: byte)
    requires u == Up(m) && y == if m >= 128 then q else 0
    ensures Shift(Msb, m, q) == ByteXor(u, y)
  {
  }

  /** The mirror image of zero is zero. */
  lemma MirrorSelf(x: byte)
    ensures Mirror(ByteXor(x, x)) == ByteXor(x, x) == 0
  {
    XorSelf(x);
    XorSelf(Mirror(x));
    MirrorAdds(x, x);
  }

  lemma {:induction false} MirrorShifts(c: byte, m: byte, p: byte, q: byte, n: nat)
    requires m == Mirror(c) && q == Mirror(p)
    ensures Shifts(Msb, m, q, n) == Mirror(Shifts(Lsb, c, p, n))
    decreases n
  {
    if n > 0 {
      MirrorShifts(c, m, p, q, n - 1);
      MirrorShift(Shifts(Lsb, c, p, n - 1), Shifts(Msb, m, q, n - 1), p, q);
    }
  }

  /** The two bit orders compute mirror images of each other. */
  lemma {:induction false} SerialMirrored(data: seq<byte>, c: byte, p: byte)
    ensures Mirror(Serial(Lsb, data, c, p)) == Serial(Msb, Mirrors(data), Mirror(c), Mirror(p))
  {
    if data != [] {
      var front, last := data[..|data| - 1], data[|data| - 1];
      SerialMirrored(front, c, p);
      var s := Serial(Lsb, front, c, p);
      MirrorAdds(s, last);
      MirrorShifts(ByteXor(s, last), ByteXor(Mirror(s), Mirror(last)), p, Mirror(p), BITS);
      assert Mirrors(data)[..|Mirrors(data)| - 1] == Mirrors(front);
    }
  }

  /** A byte as the division sees it: the coefficient of the highest power on top. */
  function Oriented(o: Order, x: byte): byte {
    if o.Msb? then x else Mirror(x)
  }

  function OrientedAll(o: Order, data: seq<byte>): seq<byte> {
    if o.Msb? then data else Mirrors(data)
  }

  /** In both bit orders the checksum is the only remainder of the division. */
  lemma RemainderInBothOrders(o: Order, data: seq<byte>, c: byte, p: byte, r: byte)
    ensures
      IsRemainder(Oriented(o, r), Dividend(OrientedAll(o, data), Oriented(o, c)), Generator(Oriented(o, p)))
      <==> r == Serial(o, data, c, p)
  {
    SerialIsRemainder(OrientedAll(o, data), Oriented(o, c), Oriented(o, p), Oriented(o, r));
    if o.Lsb? {
      SerialMirrored(data, c, p);
      MirrorTwice(r);
      MirrorTwice(Serial(Lsb, data, c, p));
    }
  }

  lemma {:induction false} MirrorsLength(data: seq<byte>)
    ensures |Mirrors(data)| == |data|
  {
    if data != [] {
      MirrorsLength(data[..|data| - 1]);
    }
  }

  /** In both bit orders a change goes unnoticed exactly when the generator divides it. */
  lemma UnnoticedInBothOrders(o: Order, a: seq<byte>, b: seq<byte>, c: byte, p: byte)
    requires |a| == |b|
    ensures
      Serial(o, a, c, p) == Serial(o, b, c, p)
      <==> IsRemainder(0, 256 * Xor(Number(OrientedAll(o, a)), Number(OrientedAll(o, b))), Generator(Oriented(o, p)))
  {
    MirrorsLength(a);
    MirrorsLength(b);
    UnnoticedExactly(OrientedAll(o, a), OrientedAll(o, b), Oriented(o, c), Oriented(o, p));
    if o.Lsb? {
      SerialMirrored(a, c, p);
      SerialMirrored(b, c, p);
      MirrorTwice(Serial(Lsb, a, c, p));
      MirrorTwice(Serial(Lsb, b, c, p));
    }
  }
}
