/** lib/crc8.c: the two table generators and the table-driven checksum. */
module Crc8Table {
  import opened Machine
  import opened Gf2
  import opened Crc8

  // ---------- tables

  /** The table of a polynomial. */
  function Table(o: Order, p: byte): (t: seq<byte>)
    ensures |t| == TABLE_SIZE && forall x: byte :: t[x] == Entry(o, x, p)
  {
    seq(TABLE_SIZE, x requires 0 <= x < TABLE_SIZE => Entry(o, x, p))
  }

  lemma PlainShift(y: byte, p: byte)
    ensures y < 128 ==> Shift(Msb, y, p) == 2 * y
    ensures y % 2 == 0 ==> Shift(Lsb, y, p) == y / 2
  {
    XorZero(2 * y);
    XorZero(y / 2);
  }

  /** While a single bit has not been shifted out, nothing is reduced. */
  lemma {:induction false} SingleBitUp(p: byte, n: nat)
    requires n <= 7
    ensures Shifts(Msb, 1, p, n) == Pow2(n)
  {
    if n > 0 {
      SingleBitUp(p, n - 1);
      SmallPower(n - 1);
      PlainShift(Shifts(Msb, 1, p, n - 1), p);
    }
  }

  lemma {:induction false} SingleBitDown(x: byte, p: byte, n: nat, m: nat)
    requires x == Pow2(n + m) && n + m <= 7
    ensures Shifts(Lsb, x, p, n) == Pow2(m)
    decreases n
  {
    if n > 0 {
      SingleBitDown(x, p, n - 1, m + 1);
      PowerShift(Shifts(Lsb, x, p, n - 1), p, m);
    }
  }

  lemma PowerShift(y: byte, p: byte, m: nat)
    requires y == Pow2(m + 1)
    ensures Shift(Lsb, y, p) == Pow2(m)
  {
    PlainShift(y, p);
  }

  lemma SmallPower(n: nat)
    requires n <= 6
    ensures Pow2(n) <= 64 && Pow2(7 - n) % 2 == 0 && Pow2(7 - n) <= 128
  {
    Pow2Grows(n, 6);
    Pow2Grows(7 - n, 7);
    assert Pow2(6) == 64 && Pow2(7) == 128;
  }

  lemma FirstEntry(p: byte)
    ensures Shift(Msb, 128, p) == Entry(Msb, 1, p) && Shift(Lsb, 1, p) == Entry(Lsb, 128, p)
  {
    assert Pow2(7) == 128;
    SingleBitUp(p, 7);
    SingleBitDown(128, p, 7, 0);
  }

  lemma PowersOfTwo(n: nat)
    requires n <= 8
    ensures Pow2(n) <= 256 && (n < 8 <==> Pow2(n) <= 128) && (n < 8 <==> Pow2(n) < 256)
  {
    assert Pow2(7) == 128 && Pow2(8) == 256;
    if n < 8 {
      Pow2Grows(n, 7);
    }
  }

  lemma TopSum(n: nat, i: byte, j: nat)
    requires i == Pow2(n) && j < i
    ensures Xor(j, i) == i + j
  {
    XorParts(0, j, 1, 0, n);
    XorZero(1);
    XorZero(j);
  }

  /** What the inner loop adds: with the top bit i, the entry is the sum of two others. */
  lemma MsbSum(n: nat, i: byte, j: nat, p: byte)
    requires i == Pow2(n) && j < i && i + j < TABLE_SIZE
    ensures ByteXor(Table(Msb, p)[j], Table(Msb, p)[i]) == Table(Msb, p)[i + j]
  {
    TopSum(n, i, j);
    EntryOfSum(Msb, j, i, i + j, p);
  }

  lemma EntryOfSum(o: Order, c: byte, d: byte, e: byte, p: byte)
    requires e == Xor(c, d)
    ensures ByteXor(Table(o, p)[c], Table(o, p)[d]) == Table(o, p)[e]
  {
    EntryLinear(o, c, d, p);
  }

  /** Doubling the number shifts its entry. */
  lemma MsbNext(i: byte, p: byte)
    requires i < 128
    ensures Shift(Msb, Table(Msb, p)[i], p) == Table(Msb, p)[2 * i]
  {
    XorZero(2 * i);
    EntryCommutes(Msb, i, p);
  }

  lemma MsbStart(p: byte)
    ensures Table(Msb, p)[0] == 0 && Shift(Msb, 128, p) == Table(Msb, p)[1]
  {
    EntryZero(Msb, p);
    FirstEntry(p);
  }

  /** crc8_populate_msb */
  method PopulateMsb(table: array<byte>, p: byte)
    requires table.Length == TABLE_SIZE
    modifies table
    ensures table[..] == Table(Msb, p)
  {
    ghost var want := Table(Msb, p);
    var t: byte := 128;
    table[0] := 0;
    var i := 1;
    ghost var n := 0;
    MsbStart(p);
    PowersOfTwo(0);
    while i < TABLE_SIZE
      invariant n <= 8 && i == Pow2(n) <= TABLE_SIZE
      invariant i < TABLE_SIZE ==> Shift(Msb, t, p) == want[i]
      invariant table[..i] == want[..i]
      decreases 8 - n
    {
      PowersOfTwo(n);
      t := Shift(Msb, t, p);
      FillUp(table, i, n, t, p, want);
      if i < 128 {
        MsbNext(i, p);
      }
      PowersOfTwo(n + 1);
      i, n := i * 2, n + 1;
    }
    AllEqual(table[..], want, i);
  }

  lemma AllEqual(s: seq<byte>, want: seq<byte>, n: nat)
    requires |s| == |want| == n && s[..n] == want[..n]
    ensures s == want
  {
    assert s[..n] == s && want[..n] == want;
  }

  /** The inner loop: the entries from i to 2 * i. */
  method FillUp(table: array<byte>, i: byte, ghost n: nat, t: byte, p: byte, ghost want: seq<byte>)
    requires table.Length == TABLE_SIZE && i == Pow2(n) && 2 * i <= TABLE_SIZE
    requires want == Table(Msb, p) && t == want[i] && table[..i] == want[..i]
    modifies table
    ensures table[..2 * i] == want[..2 * i]
  {
    var j := 0;
    while j < i
      invariant 0 <= j <= i
      invariant table[..i + j] == want[..i + j]
    {
      MsbSum(n, i, j, p);
      assert table[j] == want[j] by {
        assert table[..i + j][j] == want[..i + j][j];
      }
      table[i + j] := ByteXor(table[j], t);
      j := j + 1;
    }
  }

  // ---------- the table for the other bit order

  predicate IsMultiple(x: nat, i: nat)
    requires i > 0
  {
    if x < i then x == 0 else IsMultiple(x - i, i)
  }

  lemma {:induction false} MultipleGap(x: nat, y: nat, i: nat)
    requires i > 0 && IsMultiple(x, i) && IsMultiple(y, i) && x < y
    ensures x + i <= y
  {
    if x >= i {
      MultipleGap(x - i, y - i, i);
    }
  }

  lemma {:induction false} MultipleHalf(x: nat, i: nat)
    requires i > 0
    ensures IsMultiple(x, i) <==> IsMultiple(x, 2 * i) || (x >= i && IsMultiple(x - i, 2 * i))
    decreases x
  {
    if x >= 2 * i {
      MultipleHalf(x - 2 * i, i);
    }
  }

  lemma {:induction false} MultipleFactor(x: nat, i: nat) returns (k: nat)
    requires i > 0 && IsMultiple(x, i)
    ensures x == k * i
  {
    if x < i {
      k := 0;
    } else {
      var l := MultipleFactor(x - i, i);
      k := l + 1;
    }
  }

  lemma {:induction false} PowerMultiple(n: nat, m: nat)
    requires n <= m
    ensures IsMultiple(Pow2(m), Pow2(n))
    decreases m - n
  {
    if n < m {
      PowerMultiple(n + 1, m);
      MultipleHalf(Pow2(m), Pow2(n));
    }
  }

  /** The multiples of i that are filled: all the even ones, and the odd ones below m. */
  ghost function Done(i: nat, m: int): set<int>
    requires i > 0
  {
    set x | 0 <= x < TABLE_SIZE && IsMultiple(x, i) && (IsMultiple(x, 2 * i) || x < m)
  }

  ghost predicate Filled(table: seq<byte>, want: seq<byte>, done: set<int>) {
    |table| == |want| == TABLE_SIZE && forall x :: x in done && 0 <= x < TABLE_SIZE ==> table[x] == want[x]
  }

  lemma FillOne(table: seq<byte>, want: seq<byte>, done: set<int>, x: int, v: byte)
    requires Filled(table, want, done) && 0 <= x < TABLE_SIZE && v == want[x]
    ensures Filled(table[x := v], want, done + {x})
  {
  }

  /** From one even multiple to the next. */
  lemma DoneNext(n: nat, i: nat, j: nat)
    requires n <= 7 && i == Pow2(n) && j < TABLE_SIZE && IsMultiple(j, 2 * i)
    ensures j in Done(i, j) && j + 2 * i <= TABLE_SIZE && IsMultiple(j + 2 * i, 2 * i)
    ensures Done(i, j + 2 * i) == Done(i, j) + {i + j}
  {
    assert Pow2(8) == TABLE_SIZE;
    PowerMultiple(n + 1, 8);
    MultipleGap(j, TABLE_SIZE, 2 * i);
    MultipleHalf(j, i);
    MultipleHalf(i + j, i);
    forall x | x in Done(i, j + 2 * i) ensures x in Done(i, j) || x == i + j {
      NothingElse(i, j, x);
    }
  }

  lemma NothingElse(i: nat, j: nat, x: nat)
    requires i > 0 && IsMultiple(j, 2 * i) && x in Done(i, j + 2 * i)
    ensures x in Done(i, j) || x == i + j
  {
    if !IsMultiple(x, 2 * i) && x >= j {
      MultipleHalf(x, i);
      SameMultiple(j, x - i, 2 * i);
    }
  }

  lemma SameMultiple(j: nat, y: nat, s: nat)
    requires s > 0 && IsMultiple(j, s) && IsMultiple(y, s) && j < y + s && y < j + s
    ensures y == j
  {
    if j < y {
      MultipleGap(j, y, s);
    } else if y < j {
      MultipleGap(y, j, s);
    }
  }

  lemma DoneHalf(i: nat, k: nat)
    requires i > 0 && k == 2 * i
    ensures Done(i, 0) == Done(k, TABLE_SIZE)
  {
    forall x: nat ensures IsMultiple(x, k) ==> IsMultiple(x, i) {
      MultipleHalf(x, i);
    }
    forall x: nat ensures IsMultiple(x, 2 * k) ==> IsMultiple(x, k) {
      MultipleHalf(x, k);
    }
  }

  lemma DoneEnds(table: seq<byte>, want: seq<byte>, done: set<int>, i: nat)
    requires i == 1 && Filled(table, want, done) && done == Done(i, TABLE_SIZE)
    ensures table == want
  {
    forall x: nat ensures IsMultiple(x, 1) {
      One(x);
    }
  }

  lemma {:induction false} One(x: nat)
    ensures IsMultiple(x, 1)
  {
    if x > 0 {
      One(x - 1);
    }
  }

  lemma OddMultiple(n: nat, k: nat)
    ensures Xor(2 * k * Pow2(n), Pow2(n)) == 2 * k * Pow2(n) + Pow2(n)
  {
    var a := 2 * k;
    XorParts(a, 0, 1, 0, n);
    XorZero(0);
    OddSum(k);
    NextTimes(a, Pow2(n));
  }

  lemma OddSum(k: nat)
    ensures Xor(2 * k, 1) == 2 * k + 1
  {
    XorHalf(2 * k, 1);
    XorZero(k);
    SameHalves(Xor(2 * k, 1), 2 * k + 1);
  }

  lemma NextTimes(a: nat, b: nat)
    ensures (a + 1) * b == a * b + b
  {
  }

  /** What the inner loop adds: with the lowest bit i, the entry is the sum of two others. */
  lemma LsbSum(n: nat, i: byte, j: byte, p: byte)
    requires i == Pow2(n) && IsMultiple(j, 2 * i) && j + i < TABLE_SIZE
    ensures ByteXor(Table(Lsb, p)[j], Table(Lsb, p)[i]) == Table(Lsb, p)[j + i]
  {
    var k := MultipleFactor(j, 2 * i);
    assert k * (2 * i) == 2 * k * i;
    OddMultiple(n, k);
    EntryOfSum(Lsb, j, i, j + i, p);
  }

  /** One step of the inner loop. */
  lemma LsbFill(table: seq<byte>, n: nat, i: byte, j: nat, p: byte, done: set<int>)
    requires n <= 7 && i == Pow2(n) && j < TABLE_SIZE && IsMultiple(j, 2 * i)
    requires Filled(table, Table(Lsb, p), done) && done == Done(i, j)
    ensures j + 2 * i <= TABLE_SIZE && IsMultiple(j + 2 * i, 2 * i)
    ensures Filled(table[i + j := ByteXor(table[j], Table(Lsb, p)[i])], Table(Lsb, p), Done(i, j + 2 * i))
  {
    DoneNext(n, i, j);
    LsbSum(n, i, j, p);
    FillOne(table, Table(Lsb, p), done, i + j, Table(Lsb, p)[i + j]);
  }

  /** Halving the number shifts its entry. */
  lemma LsbNext(i: byte, p: byte)
    requires i % 2 == 0
    ensures Shift(Lsb, Table(Lsb, p)[i], p) == Table(Lsb, p)[i / 2]
  {
    XorZero(i / 2);
    EntryCommutes(Lsb, i, p);
  }

  lemma LsbStart(p: byte)
    ensures Table(Lsb, p)[0] == 0 && Shift(Lsb, 1, p) == Table(Lsb, p)[128]
    ensures Pow2(7) == 128 && Done(128, 0) == {0}
  {
    EntryZero(Lsb, p);
    FirstEntry(p);
  }

  /** Between two rounds of the outer loop. */
  lemma LsbNextRound(n: nat, i: byte, p: byte) returns (m: nat)
    requires i > 1 && i == Pow2(n)
    ensures m < n && i / 2 == Pow2(m) && Done(i / 2, 0) == Done(i, TABLE_SIZE)
    ensures Shift(Lsb, Table(Lsb, p)[i], p) == Table(Lsb, p)[i / 2]
  {
    DoneHalf(i / 2, i);
    LsbNext(i, p);
    m := n - 1;
  }

  /** crc8_populate_lsb */
  method PopulateLsb(table: array<byte>, p: byte)
    requires table.Length == TABLE_SIZE
    modifies table
    ensures table[..] == Table(Lsb, p)
  {
    ghost var want := Table(Lsb, p);
    var t: byte := 1;
    table[0] := 0;
    var i: byte := TABLE_SIZE / 2;
    ghost var n: nat, done := 7, {0};
    LsbStart(p);
    while i > 0
      invariant i > 0 ==> n <= 7 && i == Pow2(n) && Shift(Lsb, t, p) == want[i]
      invariant i > 0 ==> Filled(table[..], want, done) && done == Done(i, 0)
      invariant i == 0 ==> table[..] == want
    {
      t := Shift(Lsb, t, p);
      done := FillAcross(table, i, n, t, p, want, done);
      if i == 1 {
        DoneEnds(table[..], want, done, i);
      } else {
        n := LsbNextRound(n, i, p);
      }
      i := i / 2;
    }
  }

  /** The inner loop: the odd multiples of i. */
  method FillAcross(table: array<byte>, i: byte, ghost n: nat, t: byte, p: byte, ghost want: seq<byte>,
                    ghost before: set<int>) returns (ghost done: set<int>)
    requires table.Length == TABLE_SIZE && n <= 7 && i == Pow2(n)
    requires want == Table(Lsb, p) && t == want[i] && Filled(table[..], want, before) && before == Done(i, 0)
    modifies table
    ensures Filled(table[..], want, done) && done == Done(i, TABLE_SIZE)
  {
    var j := 0;
    done := before;
    while j < TABLE_SIZE
      invariant 0 <= j <= TABLE_SIZE && IsMultiple(j, 2 * i)
      invariant Filled(table[..], want, done) && done == Done(i, j)
    {
      LsbFill(table[..], n, i, j, p, done);
      table[i + j] := ByteXor(table[j], t);
      done := Done(i, j + 2 * i);
      j := j + 2 * i;
    }
  }

  // ---------- the checksum

  /** crc8 */
  method Checksum(table: array<byte>, data: seq<byte>, seed: byte, ghost o: Order, ghost p: byte) returns (crc: byte)
    requires table[..] == Table(o, p)
    ensures crc == Serial(o, data, seed, p)
  {
    crc := seed;
    var i := 0;
    while i < |data|
      invariant 0 <= i <= |data| && crc == Serial(o, data[..i], seed, p)
    {
      assert data[..i + 1][..i] == data[..i];
      assert table[..][ByteXor(crc, data[i])] == Entry(o, ByteXor(crc, data[i]), p);
      crc := table[ByteXor(crc, data[i])];
      i := i + 1;
    }
    assert data[..i] == data;
  }
}
