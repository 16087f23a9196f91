/** The 256-entry table of crc16_ccitt in bootloader/rp2350/flash_program.c: each entry is the
    remainder of its byte. */
module CcittTable {
  import opened Machine
  import opened Gf2
  import opened Ccitt
  import T = Crc8Theory

  // crc16tab, in rows of eight as it is written down

  const ROW0: seq<u16> := [0x0000, 0x1021, 0x2042, 0x3063, 0x4084, 0x50a5, 0x60c6, 0x70e7]
  const ROW1: seq<u16> := [0x8108, 0x9129, 0xa14a, 0xb16b, 0xc18c, 0xd1ad, 0xe1ce, 0xf1ef]
  const ROW2: seq<u16> := [0x1231, 0x0210, 0x3273, 0x2252, 0x52b5, 0x4294, 0x72f7, 0x62d6]
  const ROW3: seq<u16> := [0x9339, 0x8318, 0xb37b, 0xa35a, 0xd3bd, 0xc39c, 0xf3ff, 0xe3de]
  const ROW4: seq<u16> := [0x2462, 0x3443, 0x0420, 0x1401, 0x64e6, 0x74c7, 0x44a4, 0x5485]
  const ROW5: seq<u16> := [0xa56a, 0xb54b, 0x8528, 0x9509, 0xe5ee, 0xf5cf, 0xc5ac, 0xd58d]
  const ROW6: seq<u16> := [0x3653, 0x2672, 0x1611, 0x0630, 0x76d7, 0x66f6, 0x5695, 0x46b4]
  const ROW7: seq<u16> := [0xb75b, 0xa77a, 0x9719, 0x8738, 0xf7df, 0xe7fe, 0xd79d, 0xc7bc]
  const ROW8: seq<u16> := [0x48c4, 0x58e5, 0x6886, 0x78a7, 0x0840, 0x1861, 0x2802, 0x3823]
  const ROW9: seq<u16> := [0xc9cc, 0xd9ed, 0xe98e, 0xf9af, 0x8948, 0x9969, 0xa90a, 0xb92b]
  const ROW10: seq<u16> := [0x5af5, 0x4ad4, 0x7ab7, 0x6a96, 0x1a71, 0x0a50, 0x3a33, 0x2a12]
  const ROW11: seq<u16> := [0xdbfd, 0xcbdc, 0xfbbf, 0xeb9e, 0x9b79, 0x8b58, 0xbb3b, 0xab1a]
  const ROW12: seq<u16> := [0x6ca6, 0x7c87, 0x4ce4, 0x5cc5, 0x2c22, 0x3c03, 0x0c60, 0x1c41]
  const ROW13: seq<u16> := [0xedae, 0xfd8f, 0xcdec, 0xddcd, 0xad2a, 0xbd0b, 0x8d68, 0x9d49]
  const ROW14: seq<u16> := [0x7e97, 0x6eb6, 0x5ed5, 0x4ef4, 0x3e13, 0x2e32, 0x1e51, 0x0e70]
  const ROW15: seq<u16> := [0xff9f, 0xefbe, 0xdfdd, 0xcffc, 0xbf1b, 0xaf3a, 0x9f59, 0x8f78]
  const ROW16: seq<u16> := [0x9188, 0x81a9, 0xb1ca, 0xa1eb, 0xd10c, 0xc12d, 0xf14e, 0xe16f]
  const ROW17: seq<u16> := [0x1080, 0x00a1, 0x30c2, 0x20e3, 0x5004, 0x4025, 0x7046, 0x6067]
  const ROW18: seq<u16> := [0x83b9, 0x9398, 0xa3fb, 0xb3da, 0xc33d, 0xd31c, 0xe37f, 0xf35e]
  const ROW19: seq<u16> := [0x02b1, 0x1290, 0x22f3, 0x32d2, 0x4235, 0x5214, 0x6277, 0x7256]
  const ROW20: seq<u16> := [0xb5ea, 0xa5cb, 0x95a8, 0x8589, 0xf56e, 0xe54f, 0xd52c, 0xc50d]
  const ROW21: seq<u16> := [0x34e2, 0x24c3, 0x14a0, 0x0481, 0x7466, 0x6447, 0x5424, 0x4405]
  const ROW22: seq<u16> := [0xa7db, 0xb7fa, 0x8799, 0x97b8, 0xe75f, 0xf77e, 0xc71d, 0xd73c]
  const ROW23: seq<u16> := [0x26d3, 0x36f2, 0x0691, 0x16b0, 0x6657, 0x7676, 0x4615, 0x5634]
  const ROW24: seq<u16> := [0xd94c, 0xc96d, 0xf90e, 0xe92f, 0x99c8, 0x89e9, 0xb98a, 0xa9ab]
  const ROW25: seq<u16> := [0x5844, 0x4865, 0x7806, 0x6827, 0x18c0, 0x08e1, 0x3882, 0x28a3]
  const ROW26: seq<u16> := [0xcb7d, 0xdb5c, 0xeb3f, 0xfb1e, 0x8bf9, 0x9bd8, 0xabbb, 0xbb9a]
  const ROW27: seq<u16> := [0x4a75, 0x5a54, 0x6a37, 0x7a16, 0x0af1, 0x1ad0, 0x2ab3, 0x3a92]
  const ROW28: seq<u16> := [0xfd2e, 0xed0f, 0xdd6c, 0xcd4d, 0xbdaa, 0xad8b, 0x9de8, 0x8dc9]
  const ROW29: seq<u16> := [0x7c26, 0x6c07, 0x5c64, 0x4c45, 0x3ca2, 0x2c83, 0x1ce0, 0x0cc1]
  const ROW30: seq<u16> := [0xef1f, 0xff3e, 0xcf5d, 0xdf7c, 0xaf9b, 0xbfba, 0x8fd9, 0x9ff8]
  const ROW31: seq<u16> := [0x6e17, 0x7e36, 0x4e55, 0x5e74, 0x2e93, 0x3eb2, 0x0ed1, 0x1ef0]

  const ROWS: seq<seq<u16>> := [
    ROW0, ROW1, ROW2, ROW3, ROW4, ROW5, ROW6, ROW7,
    ROW8, ROW9, ROW10, ROW11, ROW12, ROW13, ROW14, ROW15,
    ROW16, ROW17, ROW18, ROW19, ROW20, ROW21, ROW22, ROW23,
    ROW24, ROW25, ROW26, ROW27, ROW28, ROW29, ROW30, ROW31
  ]

  predicate IsTable(rows: seq<seq<u16>>) {
    |rows| == 32 && forall r :: 0 <= r < 32 ==> |rows[r]| == 8
  }

  function Lookup(rows: seq<seq<u16>>, x: byte): u16
    requires IsTable(rows)
  {
    rows[x / 8][x % 8]
  }

  /** The entry for the byte x. */
  function Tab(x: byte): u16 {
    TableShape();
    Lookup(ROWS, x)
  }

  lemma TableShape()
    ensures IsTable(ROWS)
  {
  }

  /** The exclusive or with 0x1021, for an even number: bit 0 is set, bits 5 and 12 change. */
  function Flip(c: nat): int {
    c + 1 + (if c % 64 >= 32 then -32 else 32) + if c % 8192 >= 4096 then -4096 else 4096
  }

  lemma FlipLowest(a: nat)
    ensures Xor(a, 1) == if a % 2 == 1 then a - 1 else a + 1
  {
    XorHalf(a, 1);
    XorZero(a / 2);
  }

  lemma Rest64(q: nat, r: nat)
    requires r < 64
    ensures (64 * q + r) % 64 == r
  {
  }

  lemma Rest8192(q: nat, r: nat)
    requires r < 8192
    ensures (8192 * q + r) % 8192 == r
  {
  }

  lemma PartsOf(h: nat, m: nat, k: nat, c: nat)
    requires m < 128 && k < 32 && c == 4096 * h + 32 * m + k
    ensures c % 64 == 32 * (m % 2) + k && c % 8192 == 4096 * (h % 2) + 32 * m + k
  {
    Rest64(64 * h + m / 2, 32 * (m % 2) + k);
    Rest8192(h / 2, 4096 * (h % 2) + 32 * m + k);
  }

  lemma FlipParts(h: nat, m: nat, k: nat)
    requires m < 128 && k < 32 && k % 2 == 0
    ensures Flip(4096 * h + 32 * m + k) == 4096 * Xor(h, 1) + 32 * Xor(m, 1) + Xor(k, 1)
  {
    PartsOf(h, m, k, 4096 * h + 32 * m + k);
    FlipLowest(h);
    FlipLowest(m);
    FlipLowest(k);
  }

  lemma TailParts(h: nat, m: nat, k: nat, t: nat)
    requires m < 128 && k < 32 && t == 4096 + 32 + 1
    ensures Xor(4096 * h + 32 * m + k, t) == 4096 * Xor(h, 1) + 32 * Xor(m, 1) + Xor(k, 1)
  {
    assert Pow2(5) == 32;
    assert Pow2(8) == 256;
    assert Pow2(12) == 4096;
    XorParts(h, 32 * m + k, 1, 33, 12);
    XorParts(m, k, 1, 1, 5);
  }

  lemma FlipIsXor(c: u16)
    requires c % 2 == 0
    ensures Flip(c) == Xor(c, TAIL)
  {
    var h, m, k := c / 4096, c / 32 % 128, c % 32;
    assert c == 4096 * h + 32 * m + k;
    FlipParts(h, m, k);
    TailParts(h, m, k, TAIL);
  }

  /** The entries of 2 * x and 2 * x + 1 from that of x. */
  function Even(c: u16): int {
    if c < 0x8000 then 2 * c else Flip(2 * c - 0x1_0000)
  }

  function Odd(c: u16): int {
    if c < 0x8000 then Flip(2 * c) else 2 * c - 0x1_0000
  }

  function Children(a: u16, b: u16, c: u16, d: u16): seq<int> {
    [Even(a), Odd(a), Even(b), Odd(b), Even(c), Odd(c), Even(d), Odd(d)]
  }

  /** The two rows that follow from the one with half their numbers. */
  function Left(row: seq<u16>): seq<int>
    requires |row| == 8
  {
    Children(row[0], row[1], row[2], row[3])
  }

  function Right(row: seq<u16>): seq<int>
    requires |row| == 8
  {
    Children(row[4], row[5], row[6], row[7])
  }

  predicate Follow(c: u16, even: u16, odd: u16) {
    if c < 0x8000 then even == 2 * c && odd == Flip(even)
    else odd == 2 * c - 0x1_0000 && even == Flip(odd)
  }

  lemma RowFollows(row: seq<u16>, left: seq<u16>, right: seq<u16>)
    requires |row| == |left| == |right| == 8
    requires Follow(row[0], left[0], left[1]) && Follow(row[1], left[2], left[3])
    requires Follow(row[2], left[4], left[5]) && Follow(row[3], left[6], left[7])
    requires Follow(row[4], right[0], right[1]) && Follow(row[5], right[2], right[3])
    requires Follow(row[6], right[4], right[5]) && Follow(row[7], right[6], right[7])
    ensures left == Left(row) && right == Right(row)
  {
  }

  lemma Quarter0()
    ensures ROW0 == Left(ROW0) && ROW1 == Right(ROW0)
    ensures ROW2 == Left(ROW1) && ROW3 == Right(ROW1)
    ensures ROW4 == Left(ROW2) && ROW5 == Right(ROW2)
    ensures ROW6 == Left(ROW3) && ROW7 == Right(ROW3)
  {
    RowFollows(ROW0, ROW0, ROW1);
    RowFollows(ROW1, ROW2, ROW3);
    RowFollows(ROW2, ROW4, ROW5);
    RowFollows(ROW3, ROW6, ROW7);
  }

  lemma Quarter1()
    ensures ROW8 == Left(ROW4) && ROW9 == Right(ROW4)
    ensures ROW10 == Left(ROW5) && ROW11 == Right(ROW5)
    ensures ROW12 == Left(ROW6) && ROW13 == Right(ROW6)
    ensures ROW14 == Left(ROW7) && ROW15 == Right(ROW7)
  {
    RowFollows(ROW4, ROW8, ROW9);
    RowFollows(ROW5, ROW10, ROW11);
    RowFollows(ROW6, ROW12, ROW13);
    RowFollows(ROW7, ROW14, ROW15);
  }

  lemma Quarter2()
    ensures ROW16 == Left(ROW8) && ROW17 == Right(ROW8)
    ensures ROW18 == Left(ROW9) && ROW19 == Right(ROW9)
    ensures ROW20 == Left(ROW10) && ROW21 == Right(ROW10)
    ensures ROW22 == Left(ROW11) && ROW23 == Right(ROW11)
  {
    RowFollows(ROW8, ROW16, ROW17);
    RowFollows(ROW9, ROW18, ROW19);
    RowFollows(ROW10, ROW20, ROW21);
    RowFollows(ROW11, ROW22, ROW23);
  }

  lemma Quarter3()
    ensures ROW24 == Left(ROW12) && ROW25 == Right(ROW12)
    ensures ROW26 == Left(ROW13) && ROW27 == Right(ROW13)
    ensures ROW28 == Left(ROW14) && ROW29 == Right(ROW14)
    ensures ROW30 == Left(ROW15) && ROW31 == Right(ROW15)
  {
    RowFollows(ROW12, ROW24, ROW25);
    RowFollows(ROW13, ROW26, ROW27);
    RowFollows(ROW14, ROW28, ROW29);
    RowFollows(ROW15, ROW30, ROW31);
  }

  lemma FollowIn0(r: nat)
    requires 0 <= r < 4 && |ROWS| == 32
    ensures |ROWS[r]| == 8 && ROWS[2 * r] == Left(ROWS[r]) && ROWS[2 * r + 1] == Right(ROWS[r])
  {
    Quarter0();
  }

  lemma FollowIn1(r: nat)
    requires 4 <= r < 8 && |ROWS| == 32
    ensures |ROWS[r]| == 8 && ROWS[2 * r] == Left(ROWS[r]) && ROWS[2 * r + 1] == Right(ROWS[r])
  {
    Quarter1();
  }

  lemma FollowIn2(r: nat)
    requires 8 <= r < 12 && |ROWS| == 32
    ensures |ROWS[r]| == 8 && ROWS[2 * r] == Left(ROWS[r]) && ROWS[2 * r + 1] == Right(ROWS[r])
  {
    Quarter2();
  }

  lemma FollowIn3(r: nat)
    requires 12 <= r < 16 && |ROWS| == 32
    ensures |ROWS[r]| == 8 && ROWS[2 * r] == Left(ROWS[r]) && ROWS[2 * r + 1] == Right(ROWS[r])
  {
    Quarter3();
  }

  ghost predicate Grows(rows: seq<seq<u16>>) {
    IsTable(rows)
    && forall r :: 0 <= r < 16 ==> rows[2 * r] == Left(rows[r]) && rows[2 * r + 1] == Right(rows[r])
  }

  lemma TableGrows()
    ensures Grows(ROWS)
  {
    TableShape();
    forall r: nat | r < 16 ensures ROWS[2 * r] == Left(ROWS[r]) && ROWS[2 * r + 1] == Right(ROWS[r]) {
      if r < 4 {
        FollowIn0(r);
      } else if r < 8 {
        FollowIn1(r);
      } else if r < 12 {
        FollowIn2(r);
      } else {
        FollowIn3(r);
      }
    }
  }

  lemma LookupAt(rows: seq<seq<u16>>, r: nat, j: nat, x: nat)
    requires IsTable(rows) && r < 32 && j < 8 && x == 8 * r + j
    ensures Lookup(rows, x) == rows[r][j]
  {
    assert x / 8 == r && x % 8 == j;
  }

  /** Where the entries for 2 * x and 2 * x + 1 stand in the new rows. */
  lemma ChildrenAt(even: u16 -> int, odd: u16 -> int, row: seq<u16>, left: seq<int>, right: seq<int>, j: nat)
    requires |row| == 8 && j < 8
    requires left == [even(row[0]), odd(row[0]), even(row[1]), odd(row[1]),
                      even(row[2]), odd(row[2]), even(row[3]), odd(row[3])]
    requires right == [even(row[4]), odd(row[4]), even(row[5]), odd(row[5]),
                       even(row[6]), odd(row[6]), even(row[7]), odd(row[7])]
    ensures j < 4 ==> left[2 * j] == even(row[j]) && left[2 * j + 1] == odd(row[j])
    ensures j >= 4 ==> right[2 * j - 8] == even(row[j]) && right[2 * j - 7] == odd(row[j])
  {
  }

  lemma LookupDoubles(even: u16 -> int, odd: u16 -> int, rows: seq<seq<u16>>, row: seq<u16>, i: byte, r: nat, j: nat)
    requires IsTable(rows) && i == 8 * r + j && r < 16 && j < 8 && row == rows[r]
    requires rows[2 * r] == [even(row[0]), odd(row[0]), even(row[1]), odd(row[1]),
                             even(row[2]), odd(row[2]), even(row[3]), odd(row[3])]
    requires rows[2 * r + 1] == [even(row[4]), odd(row[4]), even(row[5]), odd(row[5]),
                                 even(row[6]), odd(row[6]), even(row[7]), odd(row[7])]
    ensures Lookup(rows, 2 * i) == even(Lookup(rows, i)) && Lookup(rows, 2 * i + 1) == odd(Lookup(rows, i))
  {
    LookupAt(rows, r, j, i);
    ChildrenAt(even, odd, row, rows[2 * r], rows[2 * r + 1], j);
    if j < 4 {
      LookupAt(rows, 2 * r, 2 * j, 2 * i);
      LookupAt(rows, 2 * r, 2 * j + 1, 2 * i + 1);
    } else {
      LookupAt(rows, 2 * r + 1, 2 * j - 8, 2 * i);
      LookupAt(rows, 2 * r + 1, 2 * j - 7, 2 * i + 1);
    }
  }

  lemma GrowingTable(rows: seq<seq<u16>>, i: byte, r: nat)
    requires Grows(rows) && i < 128 && r == i / 8
    ensures Lookup(rows, 2 * i) == Even(Lookup(rows, i)) && Lookup(rows, 2 * i + 1) == Odd(Lookup(rows, i))
  {
    assert rows[2 * r] == Left(rows[r]) && rows[2 * r + 1] == Right(rows[r]);
    LookupDoubles(Even, Odd, rows, rows[r], i, r, i % 8);
  }

  /** The entries of 2 * x and 2 * x + 1 are made from that of x. */
  ghost predicate Growing(f: byte -> u16, even: u16 -> int, odd: u16 -> int) {
    forall i: byte :: i < 128 ==> f(2 * i) == even(f(i)) && f(2 * i + 1) == odd(f(i))
  }

  lemma LookupGrows(rows: seq<seq<u16>>, f: byte -> u16)
    requires Grows(rows) && forall x: byte :: f(x) == Lookup(rows, x)
    ensures Growing(f, Even, Odd)
  {
    forall i: byte | i < 128 ensures f(2 * i) == Even(f(i)) && f(2 * i + 1) == Odd(f(i)) {
      GrowingTable(rows, i, i / 8);
    }
  }

  lemma TabGrows()
    ensures Growing(Tab, Even, Odd)
  {
    TableGrows();
    LookupGrows(ROWS, Tab);
  }

  lemma EvenIsShift(c: u16)
    ensures Even(c) == Shift(c)
  {
    if c >= 0x8000 {
      ShiftHigh(c, 2 * c - 0x1_0000);
      FlipIsXor(2 * c - 0x1_0000);
    } else {
      ShiftLow(c);
    }
  }

  lemma OddIsSum(c: u16)
    ensures Odd(c) == Xor(Shift(c), TAIL)
  {
    if c >= 0x8000 {
      ShiftHigh(c, 2 * c - 0x1_0000);
      XorCancels(2 * c - 0x1_0000, TAIL);
    } else {
      ShiftLow(c);
      FlipIsXor(2 * c);
    }
  }

  lemma {:induction false} ShiftsCommute(c: u16, n: nat)
    ensures Shifts(Shift(c), n) == Shift(Shifts(c, n))
    decreases n
  {
    if n > 0 {
      ShiftsCommute(c, n - 1);
    }
  }

  lemma EntryDoubles(i: byte)
    requires i < 128
    ensures Entry(2 * i) == Shift(Entry(i))
  {
    ShiftLow(256 * i);
    ShiftsCommute(256 * i, BITS);
  }

  /** As long as no one falls out, shifting only doubles. */
  lemma {:induction false} ShiftsDouble(c: u16, n: nat)
    requires c * Pow2(n) < 0x1_0000
    ensures Shifts(c, n) == c * Pow2(n)
    decreases n
  {
    if n > 0 {
      T.PowerStep(c, n);
      ShiftsDouble(c, n - 1);
      ShiftLow(Shifts(c, n - 1));
    }
  }

  lemma FirstEntries(n: nat)
    requires n == BITS - 1
    ensures Entry(0) == 0 && Entry(1) == TAIL
  {
    assert Pow2(7) == 128;
    ShiftsDouble(0, BITS);
    ShiftsDouble(256, n);
    ShiftHigh(0x8000, 0);
    XorZero(TAIL);
  }

  lemma SumOfSums(a: nat, e: nat, b: nat, f: nat, c: nat, w: nat)
    requires c == Xor(a, b) && w == Xor(e, f)
    ensures Xor(Xor(a, e), Xor(b, f)) == Xor(c, w)
  {
    XorExchange(a, e, b, f);
  }

  /** The remainder of a sum is the sum of the remainders. */
  lemma RemaindersAdd(x: nat, y: nat, z: nat, e: u16, f: u16, g: u16, q: nat, r: nat, s: nat, h: nat)
    requires z == Xor(x, y) && 0x1_0000 * x == Xor(Product(q, h), e)
    requires 0x1_0000 * y == Xor(Product(r, h), f) && 0x1_0000 * z == Xor(Product(s, h), g)
    requires Pow2(16) <= h < 2 * Pow2(16)
    ensures g == WordXor(e, f)
  {
    var w := WordXor(e, f);
    WordScale(x, y);
    ProductAdds(q, r, h);
    SumOfSums(Product(q, h), e, Product(r, h), f, Product(Xor(q, r), h), w);
    SixteenBits();
    RemainderUnique(s, g, Xor(q, r), w, h, 16);
  }

  lemma EntryAdds(x: byte, y: byte, z: byte)
    requires z == Xor(x, y)
    ensures Entry(z) == Xor(Entry(x), Entry(y))
  {
    var q := EntryDivides(x);
    var r := EntryDivides(y);
    var s := EntryDivides(z);
    SixteenBits();
    RemaindersAdd(x, y, z, Entry(x), Entry(y), Entry(z), q, r, s, GENERATOR);
  }

  lemma EntryEven(i: byte)
    requires i < 128
    ensures Entry(2 * i) == Even(Entry(i))
  {
    EntryDoubles(i);
    EvenIsShift(Entry(i));
  }

  lemma NextOdd(i: nat, x: nat, one: nat)
    requires x == 2 * i && one == 1
    ensures Xor(x, one) == x + 1
  {
    XorHalf(x, one);
    XorZero(x / 2);
  }

  lemma EntryOdd(i: byte, x: byte, one: byte, e: u16, s: u16, t: u16)
    requires x < 255 && e == Entry(x) && t == Entry(one) && e == s && Xor(x, one) == x + 1
    ensures Entry(x + 1) == Xor(s, t)
  {
    EntryAdds(x, one, x + 1);
  }

  lemma EntryNext(i: byte, x: byte, c: u16)
    requires i < 128 && x == 2 * i && c == Entry(i)
    ensures x < 255 && Entry(x) == Even(c) && Entry(x + 1) == Odd(c)
  {
    EntryEven(i);
    EntryDoubles(i);
    NextOdd(i, x, 1);
    FirstEntries(BITS - 1);
    EntryOdd(i, x, 1, Entry(x), Shift(c), TAIL);
    OddIsSum(c);
  }

  lemma EntryGrows()
    ensures Growing(Entry, Even, Odd)
  {
    forall i: byte | i < 128 ensures Entry(2 * i) == Even(Entry(i)) && Entry(2 * i + 1) == Odd(Entry(i)) {
      EntryNext(i, 2 * i, Entry(i));
    }
  }

  /** Two tables that grow in the same way are the same. */
  lemma {:induction false} SameTable(f: byte -> u16, g: byte -> u16, even: u16 -> int, odd: u16 -> int, x: byte)
    requires f(0) == g(0) && Growing(f, even, odd) && Growing(g, even, odd)
    ensures f(x) == g(x)
  {
    if x > 0 {
      var i := x / 2;
      SameTable(f, g, even, odd, i);
      SameNext(f, g, even, odd, i);
      if x % 2 == 0 {
        assert x == 2 * i;
      } else {
        assert x == 2 * i + 1;
      }
    }
  }

  lemma SameNext(f: byte -> u16, g: byte -> u16, even: u16 -> int, odd: u16 -> int, i: byte)
    requires i < 128 && f(i) == g(i) && Growing(f, even, odd) && Growing(g, even, odd)
    ensures f(2 * i) == g(2 * i) && f(2 * i + 1) == g(2 * i + 1)
  {
  }

  /** Each entry of the table is what the register makes of its byte. */
  lemma TableIsEntry(x: byte)
    ensures Tab(x) == Entry(x)
  {
    FirstEntries(BITS - 1);
    TabGrows();
    EntryGrows();
    SameTable(Tab, Entry, Even, Odd, x);
  }

  /** Entry x of the table is the one remainder of x * 2^16. */
  lemma TableIsRemainder(x: byte, r: u16)
    ensures (exists q: nat :: x * 0x1_0000 == Xor(Product(q, 0x1_1021), r)) <==> r == Tab(x)
  {
    TableIsEntry(x);
    var q := EntryDivides(x);
    assert x * 0x1_0000 == Xor(Product(q, 0x1_1021), Tab(x));
    if q': nat :| x * 0x1_0000 == Xor(Product(q', 0x1_1021), r) {
      SixteenBits();
      RemainderUnique(q, Tab(x), q', r, 0x1_1021, 16);
    }
  }
}
