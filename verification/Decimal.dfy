/** Number-to-text conversion of lib/vsprintf.c: digits are produced from the right into a
    buffer, and the decimal case uses no 64-bit division. */
module Decimal {
  import opened Machine

  /** Every element is a digit of the given base. */
  predicate AllBelow(base: nat, ds: seq<nat>) {
    forall i :: 0 <= i < |ds| ==> ds[i] < base
  }

  /** The digits of n in the given base, most significant first; zero has no digits. */
  function Digits(base: nat, n: nat): (ds: seq<nat>)
    requires 2 <= base
    ensures AllBelow(base, ds)
  {
    if n == 0 then [] else Digits(base, n / base) + [n % base]
  }

  /** The number that a sequence of digits denotes. */
  function Value(base: nat, ds: seq<nat>): nat {
    if ds == [] then 0 else Value(base, ds[..|ds| - 1]) * base + ds[|ds| - 1]
  }

  lemma {:induction false} DigitsDenote(base: nat, n: nat)
    requires 2 <= base
    ensures Value(base, Digits(base, n)) == n
    ensures n > 0 ==> Digits(base, n) != [] && Digits(base, n)[0] != 0
  {
    if n > 0 {
      var q, r := n / base, n % base;
      Quotient(base, n);
      DigitsDenote(base, q);
      var ds := Digits(base, n);
      assert ds[..|ds| - 1] == Digits(base, q) && ds[|ds| - 1] == r;
    }
  }

  lemma Quotient(base: nat, n: nat)
    requires 2 <= base
    ensures n == n / base * base + n % base && (n > 0 ==> n / base < n)
  {
  }

  /** Only Digits(base, n) denotes n without a leading zero. */
  lemma {:induction false} DigitsUnique(base: nat, ds: seq<nat>)
    requires 2 <= base
    requires AllBelow(base, ds)
    requires ds != [] ==> ds[0] != 0
    ensures ds == Digits(base, Value(base, ds))
  {
    if ds != [] {
      var front, last := ds[..|ds| - 1], ds[|ds| - 1];
      DigitsUnique(base, front);
      if front == [] {
        assert last != 0;
      } else {
        assert Value(base, front) != 0;
      }
      DigitsAppend(base, Value(base, front), last);
      assert ds == front + [last];
    }
  }

  lemma DigitsAppend(base: nat, q: nat, r: nat)
    requires 2 <= base && r < base && (q > 0 || r > 0)
    ensures Digits(base, q * base + r) == Digits(base, q) + [r]
  {
    QuotientAndRest(q, base, r);
  }

  lemma QuotientAndRest(q: nat, base: nat, r: nat)
    requires r < base
    ensures (q * base + r) / base == q && (q * base + r) % base == r
    ensures q > 0 || r > 0 ==> q * base + r > 0
  {
    var n := q * base + r;
    var k := n / base - q;
    assert k * base == n / base * base - q * base == r - n % base;
    assert k >= 1 ==> k * base >= base;
    assert k <= -1 ==> k * base <= -1 * base;
  }

  /** The lowest k decimal digits of n, with leading zeros. */
  function Fixed(k: nat, n: nat): (ds: seq<nat>)
    ensures |ds| == k
    ensures AllBelow(10, ds)
  {
    if k == 0 then [] else Fixed(k - 1, n / 10) + [n % 10]
  }

  lemma FixedStep(k: nat, n: nat)
    ensures Fixed(k + 1, n) == Fixed(k, n / 10) + [n % 10]
  {
  }

  lemma FixedUnrolled4(k: nat, n: nat)
    ensures Fixed(k + 4, n) == Fixed(k, n / 10000) + [n / 1000 % 10, n / 100 % 10, n / 10 % 10, n % 10]
  {
    var a, b, c := n / 10, n / 100, n / 1000;
    FixedStep(k + 3, n);
    FixedStep(k + 2, a);
    FixedStep(k + 1, b);
    FixedStep(k, c);
    assert a / 10 == b && b / 10 == c && c / 10 == n / 10000;
  }

  lemma LowDigit(y: nat, z: nat)
    ensures (10 * z + y) % 10 == y % 10
  {
  }

  lemma LowFour(n: nat)
    ensures n % 10000 % 10 == n % 10
    ensures n % 10000 / 10 % 10 == n / 10 % 10
    ensures n % 10000 / 100 % 10 == n / 100 % 10
    ensures n % 10000 / 1000 % 10 == n / 1000 % 10
  {
    var q, m := n / 10000, n % 10000;
    LowQuotients(q, m);
    LowDigit(m, 1000 * q);
    LowDigit(m / 10, 100 * q);
    LowDigit(m / 100, 10 * q);
    LowDigit(m / 1000, q);
  }

  lemma LowQuotients(q: nat, m: nat)
    ensures (10000 * q + m) / 10 == 10 * (100 * q) + m / 10
    ensures (10000 * q + m) / 100 == 10 * (10 * q) + m / 100
    ensures (10000 * q + m) / 1000 == 10 * q + m / 1000
  {
  }

  lemma FourDigits(r: nat)
    requires r < 10000
    ensures var ds := Fixed(4, r); r == 1000 * ds[0] + 100 * ds[1] + 10 * ds[2] + ds[3]
  {
    FixedUnrolled4(0, r);
    DivTwice(r);
    assert r / 1000 % 10 == r / 1000;
  }

  lemma DivTwice(r: nat)
    ensures r == 10 * (r / 10) + r % 10
    ensures r / 10 == 10 * (r / 100) + r / 10 % 10
    ensures r / 100 == 10 * (r / 1000) + r / 100 % 10
  {
    assert r / 10 / 10 == r / 100;
    assert r / 100 / 10 == r / 1000;
  }

  /** Four digits split off at the right. */
  lemma FixedSplit4(k: nat, n: nat)
    ensures Fixed(k + 4, n) == Fixed(k, n / 10000) + Fixed(4, n % 10000)
  {
    FixedUnrolled4(k, n);
    FixedUnrolled4(0, n % 10000);
    LowFour(n);
  }

  function Pow(base: nat, k: nat): nat {
    if k == 0 then 1 else base * Pow(base, k - 1)
  }

  /** Cutting the leading zeros off Fixed(k, n) leaves the canonical digits. */
  lemma {:induction false} FixedIsPadded(k: nat, n: nat)
    requires n < Pow(10, k)
    ensures |Digits(10, n)| <= k
    ensures Fixed(k, n) == seq(k - |Digits(10, n)|, i => 0) + Digits(10, n)
  {
    if n > 0 {
      FixedIsPadded(k - 1, n / 10);
    } else if k > 0 {
      FixedIsPadded(k - 1, 0);
    }
  }

  /** The text of a sequence of digits; letters come in the case that `lower` selects. */
  function DigitChar(d: nat, lower: bool): byte
    requires d < 16
  {
    if d < 10 then '0' as int + d else (if lower then 'a' as int else 'A' as int) + d - 10
  }

  function Text(ds: seq<nat>, lower: bool): (t: seq<byte>)
    requires AllBelow(16, ds)
    ensures |t| == |ds|
  {
    seq(|ds|, i requires 0 <= i < |ds| => DigitChar(ds[i], lower))
  }

  /** s[lo..hi] is the fixed-width decimal text of n. */
  predicate Shows(s: seq<byte>, lo: nat, hi: nat, n: nat) {
    && lo <= hi <= |s|
    && forall j :: lo <= j < hi ==> s[j] == DigitChar(Fixed(hi - lo, n)[j - lo], false)
  }

  lemma TextConcat(a: seq<nat>, b: seq<nat>, lower: bool)
    requires AllBelow(16, a) && AllBelow(16, b)
    ensures Text(a + b, lower) == Text(a, lower) + Text(b, lower)
  {
  }

  /** r * 0xccd >> 15 divides by ten exactly below 16389, and 16389 is the first failure. */
  lemma Reciprocal10(r: nat)
    ensures r < 16389 ==> U32(r * 0xccd) / 0x8000 == r / 10
    ensures 16389 * 0xccd / 0x8000 != 16389 / 10
  {
    if r < 16389 {
      var q, m := r / 10, r % 10;
      assert r * 0xccd == 0x8000 * q + (2 * q + 0xccd * m);
    }
  }

  /** x * 0x346DC5D7 >> 43 divides by ten thousand below 1,128,869,999, the first failure. */
  lemma Reciprocal10000(x: nat)
    ensures x < 1_128_869_999 ==> U64(x * 0x346DC5D7) / 0x800_0000_0000 == x / 10000
    ensures U64(1_128_869_999 * 0x346DC5D7) / 0x800_0000_0000 != 1_128_869_999 / 10000
  {
    if x < 1_128_869_999 {
      var q, m := x / 10000, x % 10000;
      var rest := 7792 * q + 0x346DC5D7 * m;
      assert x * 0x346DC5D7 == 0x800_0000_0000 * q + rest && rest < 0x800_0000_0000;
    }
  }

  /** Writes the four decimal digits of r just before `end`. */
  method PutDecFull4(a: array<byte>, end: nat, r: nat)
    requires 4 <= end <= a.Length
    requires r < 10000
    modifies a
    ensures Shows(a[..], end - 4, end, r)
    ensures forall j :: 0 <= j < a.Length && !(end - 4 <= j < end) ==> a[j] == old(a[j])
  {
    ghost var ds := Fixed(4, r);
    FourDigits(r);
    var p, n: nat := end, r;
    for i := 0 to 3
      invariant p == end - i
      invariant i == 0 ==> n == 1000 * ds[0] + 100 * ds[1] + 10 * ds[2] + ds[3]
      invariant i == 1 ==> n == 100 * ds[0] + 10 * ds[1] + ds[2]
      invariant i == 2 ==> n == 10 * ds[0] + ds[1]
      invariant i == 3 ==> n == ds[0]
      invariant forall j :: p <= j < end ==> a[j] == '0' as int + ds[j - (end - 4)]
      invariant forall j :: 0 <= j < a.Length && !(p <= j < end) ==> a[j] == old(a[j])
    {
      Reciprocal10(n);
      var q := U32(n * 0xccd) / 0x8000;
      p := p - 1;
      a[p] := '0' as int + (n - q * 10);
      n := q;
    }
    p := p - 1;
    a[p] := '0' as int + n;
  }

  /** Writes x % 10000 just before `end` and returns x / 10000. */
  method PutDecHelper4(a: array<byte>, end: nat, x: u32) returns (q: u32)
    requires 4 <= end <= a.Length
    requires x < 1_128_869_999
    modifies a
    ensures q == x / 10000
    ensures Shows(a[..], end - 4, end, x % 10000)
    ensures forall j :: 0 <= j < a.Length && !(end - 4 <= j < end) ==> a[j] == old(a[j])
  {
    Reciprocal10000(x);
    q := U64(x * 0x346DC5D7) / 0x800_0000_0000;
    LowRest(x);
    PutDecFull4(a, end, U32(x - q * 10000));
  }

  lemma LowRest(x: u32)
    ensures U32(x - x / 10000 * 10000) == x % 10000
  {
    assert x - x / 10000 * 10000 == x % 10000;
  }

  /** Everything above the lowest four digits carries over a division by ten thousand. */
  lemma Carry(x: nat, rest: nat)
    ensures (x + 10000 * rest) % 10000 == x % 10000
    ensures (x + 10000 * rest) / 10000 == x / 10000 + rest
  {
  }

  /** The decimal digits of n in groups of four, top group unrestricted, lowest group last. */
  function Groups(n: nat): (nat, nat, nat, nat, nat) {
    var n1 := n / 10000;
    var n2 := n1 / 10000;
    var n3 := n2 / 10000;
    (n3 / 10000, n3 % 10000, n2 % 10000, n1 % 10000, n % 10000)
  }

  /** The carries of PutDec stay in range.  The comment at lines 57-58 of the source gives
      the largest x1. */
  lemma LimbBounds(d3: nat, d2: nat, d1: nat, d0: nat, x0: nat, x1: nat, x2: nat, x3: nat)
    requires d3 < 0x1_0000 && d2 < 0x1_0000 && d1 < 0x1_0000 && d0 < 0x1_0000
    requires x0 == 656 * d3 + 7296 * d2 + 5536 * d1 + d0
    requires x1 == x0 / 10000 + 7671 * d3 + 9496 * d2 + 6 * d1
    requires x2 == x1 / 10000 + 4749 * d3 + 42 * d2
    requires x3 == x2 / 10000 + 281 * d3
    ensures x0 < 1_128_869_999 && x1 <= 1_125_520_955 && x2 < 1_128_869_999 && x3 < 1_128_869_999
    ensures x3 / 10000 < 10000
  {
  }

  /** The bound on x1 is reached, by the largest 64-bit number. */
  lemma LargestCarry()
    ensures
      var d := 0xFFFF;
      (656 * d + 7296 * d + 5536 * d + d) / 10000 + 7671 * d + 9496 * d + 6 * d == 1_125_520_955
  {
  }

  /** The remainders of the carries are the decimal groups of n. */
  lemma LimbGroups(n: nat, d3: nat, d2: nat, d1: nat, d0: nat, x0: nat, x1: nat, x2: nat, x3: nat)
    requires n == 0x1_0000_0000_0000 * d3 + 0x1_0000_0000 * d2 + 0x1_0000 * d1 + d0
    requires x0 == 656 * d3 + 7296 * d2 + 5536 * d1 + d0
    requires x1 == x0 / 10000 + 7671 * d3 + 9496 * d2 + 6 * d1
    requires x2 == x1 / 10000 + 4749 * d3 + 42 * d2
    requires x3 == x2 / 10000 + 281 * d3
    ensures Groups(n) == (x3 / 10000, x3 % 10000, x2 % 10000, x1 % 10000, x0 % 10000)
  {
    var r3 := 281 * d3;
    var r2 := 4749 * d3 + 42 * d2;
    var r1 := 7671 * d3 + 9496 * d2 + 6 * d1;
    Carry(x0, r1 + 10000 * (r2 + 10000 * r3));
    Carry(x1, r2 + 10000 * r3);
    Carry(x2, r3);
  }

  /** Text of a number is put together from the text of its upper digits and its lowest four. */
  lemma JoinText(s: seq<byte>, lo: nat, hi: nat, n: nat)
    requires lo + 4 <= hi <= |s|
    requires Shows(s, lo, hi - 4, n / 10000)
    requires Shows(s, hi - 4, hi, n % 10000)
    ensures Shows(s, lo, hi, n)
  {
    var k := hi - 4 - lo;
    FixedSplit4(k, n);
    var high, low := Fixed(k, n / 10000), Fixed(4, n % 10000);
    forall j | lo <= j < hi ensures s[j] == DigitChar((high + low)[j - lo], false) {
      assert (high + low)[j - lo] == if j - lo < k then high[j - lo] else low[j - lo - k];
    }
  }

  lemma JoinGroups(s: seq<byte>, end: nat, n: nat)
    requires 20 <= end <= |s|
    requires
      var (g4, g3, g2, g1, g0) := Groups(n);
      && Shows(s, end - 20, end - 16, g4)
      && Shows(s, end - 16, end - 12, g3)
      && Shows(s, end - 12, end - 8, g2)
      && Shows(s, end - 8, end - 4, g1)
      && Shows(s, end - 4, end, g0)
    ensures Shows(s, end - 20, end, n)
  {
    var lo: nat := end - 20;
    var n1 := n / 10000;
    var n2 := n1 / 10000;
    var n3 := n2 / 10000;
    JoinText(s, lo, end - 12, n3);
    JoinText(s, lo, end - 8, n2);
    JoinText(s, lo, end - 4, n1);
    JoinText(s, lo, end, n);
  }

  lemma PowersOfTen(k: nat)
    ensures Pow(10, k + 4) == 10000 * Pow(10, k)
  {
    assert Pow(10, k + 4) == 10 * Pow(10, k + 3);
    assert Pow(10, k + 3) == 10 * Pow(10, k + 2);
    assert Pow(10, k + 2) == 10 * Pow(10, k + 1);
  }

  lemma TwentyDigits()
    ensures Pow(10, 20) == 100_000_000_000_000_000_000
  {
    PowersOfTen(16);
    PowersOfTen(12);
    PowersOfTen(8);
    PowersOfTen(4);
    PowersOfTen(0);
  }

  /** What the 32-bit variable q of PutDec holds before each group is written. */
  lemma Carries(n: u64, d3: nat, d2: nat, d1: nat, d0: nat) returns (x0: u32, x1: u32, x2: u32, x3: u32)
    requires d1 == U32(n) / 0x1_0000 && d0 == U32(n) % 0x1_0000
    requires d2 == U32(n / TWO32) % 0x1_0000 && d3 == U32(n / TWO32) / 0x1_0000
    ensures x0 == U32(656 * d3 + 7296 * d2 + 5536 * d1 + d0)
    ensures x1 == U32(x0 / 10000 + 7671 * d3 + 9496 * d2 + 6 * d1)
    ensures x2 == U32(x1 / 10000 + 4749 * d3 + 42 * d2)
    ensures x3 == U32(x2 / 10000 + 281 * d3)
    ensures x0 < 1_128_869_999 && x1 <= 1_125_520_955 && x2 < 1_128_869_999 && x3 < 1_128_869_999
    ensures x3 / 10000 < 10000
    ensures Groups(n) == (x3 / 10000, x3 % 10000, x2 % 10000, x1 % 10000, x0 % 10000)
  {
    LimbsAddUp(n, d3, d2, d1, d0);
    x0 := 656 * d3 + 7296 * d2 + 5536 * d1 + d0;
    x1 := x0 / 10000 + 7671 * d3 + 9496 * d2 + 6 * d1;
    x2 := x1 / 10000 + 4749 * d3 + 42 * d2;
    x3 := x2 / 10000 + 281 * d3;
    LimbBounds(d3, d2, d1, d0, x0, x1, x2, x3);
    LimbGroups(n, d3, d2, d1, d0, x0, x1, x2, x3);
    Fits(x0);
    Fits(x1);
    Fits(x2);
    Fits(x3);
  }

  lemma Fits(x: nat)
    requires x < TWO32
    ensures U32(x) == x
  {
  }

  lemma LimbsAddUp(n: u64, d3: nat, d2: nat, d1: nat, d0: nat)
    requires d1 == U32(n) / 0x1_0000 && d0 == U32(n) % 0x1_0000
    requires d2 == U32(n / TWO32) % 0x1_0000 && d3 == U32(n / TWO32) / 0x1_0000
    ensures d3 < 0x1_0000 && d2 < 0x1_0000 && d1 < 0x1_0000 && d0 < 0x1_0000
    ensures n == 0x1_0000_0000_0000 * d3 + 0x1_0000_0000 * d2 + 0x1_0000 * d1 + d0
  {
    var low, high := n % TWO32, n / TWO32;
    assert n == TWO32 * high + low && high < TWO32;
    Fits(high);
    assert low == 0x1_0000 * d1 + d0;
    assert high == 0x1_0000 * d3 + d2;
  }

  /** What is written elsewhere leaves digits as they are. */
  lemma ShowsKept(s: seq<byte>, t: seq<byte>, lo: nat, hi: nat, n: nat)
    requires Shows(s, lo, hi, n) && |t| == |s| && forall j :: lo <= j < hi ==> t[j] == s[j]
    ensures Shows(t, lo, hi, n)
  {
  }

  /** The first part of PutDec: all twenty digits, leading zeros included. */
  method PutGroups(a: array<byte>, end: nat, n: u64)
    requires 20 <= end <= a.Length
    modifies a
    ensures Shows(a[..], end - 20, end, n)
    ensures forall j :: 0 <= j < a.Length && !(end - 20 <= j < end) ==> a[j] == old(a[j])
  {
    var d1 := U32(n) / 0x1_0000;
    var h := U32(n / TWO32);
    var d2 := h % 0x1_0000;
    var d3 := h / 0x1_0000;
    var d0 := U32(n) % 0x1_0000;
    ghost var x0, x1, x2, x3 := Carries(n, d3, d2, d1, d0);
    PutCarried(a, end, d3, d2, d1, d0, x0, x1, x2, x3);
    JoinGroups(a[..], end, n);
  }

  /** Lines 86-102: each group is written from the carry of the one below it. */
  method PutCarried(a: array<byte>, end: nat, d3: nat, d2: nat, d1: nat, d0: nat,
                    ghost x0: u32, ghost x1: u32, ghost x2: u32, ghost x3: u32)
    requires 20 <= end <= a.Length
    requires x0 == U32(656 * d3 + 7296 * d2 + 5536 * d1 + d0)
    requires x1 == U32(x0 / 10000 + 7671 * d3 + 9496 * d2 + 6 * d1)
    requires x2 == U32(x1 / 10000 + 4749 * d3 + 42 * d2)
    requires x3 == U32(x2 / 10000 + 281 * d3)
    requires x0 < 1_128_869_999 && x1 < 1_128_869_999 && x2 < 1_128_869_999 && x3 < 1_128_869_999 && x3 / 10000 < 10000
    modifies a
    ensures Shows(a[..], end - 4, end, x0 % 10000) && Shows(a[..], end - 8, end - 4, x1 % 10000)
    ensures Shows(a[..], end - 12, end - 8, x2 % 10000) && Shows(a[..], end - 16, end - 12, x3 % 10000)
    ensures Shows(a[..], end - 20, end - 16, x3 / 10000)
    ensures forall j :: 0 <= j < a.Length && !(end - 20 <= j < end) ==> a[j] == old(a[j])
  {
    var q := PutLow(a, end, d3, d2, d1, d0, x0, x1);
    ghost var before := a[..];
    PutHigh(a, end, d3, d2, q, x2, x3);
    ShowsKept(before, a[..], end - 8, end - 4, x1 % 10000);
    ShowsKept(before, a[..], end - 4, end, x0 % 10000);
  }

  /** The two lowest groups, and what is carried into the next one. */
  method PutLow(a: array<byte>, end: nat, d3: nat, d2: nat, d1: nat, d0: nat, ghost x0: u32, ghost x1: u32)
    returns (q: u32)
    requires 20 <= end <= a.Length
    requires x0 == U32(656 * d3 + 7296 * d2 + 5536 * d1 + d0)
    requires x1 == U32(x0 / 10000 + 7671 * d3 + 9496 * d2 + 6 * d1)
    requires x0 < 1_128_869_999 && x1 < 1_128_869_999
    modifies a
    ensures q == x1 / 10000
    ensures Shows(a[..], end - 4, end, x0 % 10000) && Shows(a[..], end - 8, end - 4, x1 % 10000)
    ensures forall j :: 0 <= j < a.Length && !(end - 8 <= j < end) ==> a[j] == old(a[j])
  {
    q := U32(656 * d3 + 7296 * d2 + 5536 * d1 + d0);
    q := PutDecHelper4(a, end, q);
    ghost var before := a[..];
    q := U32(q + 7671 * d3 + 9496 * d2 + 6 * d1);
    q := PutDecHelper4(a, end - 4, q);
    ShowsKept(before, a[..], end - 4, end, x0 % 10000);
  }

  /** The three highest groups. */
  method PutHigh(a: array<byte>, end: nat, d3: nat, d2: nat, carry: u32, ghost x2: u32, ghost x3: u32)
    requires 20 <= end <= a.Length
    requires x2 == U32(carry + 4749 * d3 + 42 * d2)
    requires x3 == U32(x2 / 10000 + 281 * d3)
    requires x2 < 1_128_869_999 && x3 < 1_128_869_999 && x3 / 10000 < 10000
    modifies a
    ensures Shows(a[..], end - 12, end - 8, x2 % 10000) && Shows(a[..], end - 16, end - 12, x3 % 10000)
    ensures Shows(a[..], end - 20, end - 16, x3 / 10000)
    ensures forall j :: 0 <= j < a.Length && !(end - 20 <= j < end - 8) ==> a[j] == old(a[j])
  {
    var q := U32(carry + 4749 * d3 + 42 * d2);
    q := PutDecHelper4(a, end - 8, q);
    ghost var s2 := a[..];
    q := U32(q + 281 * d3);
    q := PutDecHelper4(a, end - 12, q);
    ghost var s3 := a[..];
    PutDecFull4(a, end - 16, q);
    ShowsKept(s3, a[..], end - 16, end - 12, x3 % 10000);
    ShowsKept(s2, a[..], end - 12, end - 8, x2 % 10000);
  }

  /** Writes the decimal digits of n so that they end at `end` and returns where they start. */
  method PutDec(a: array<byte>, end: nat, n: u64) returns (p: nat)
    requires 20 <= end <= a.Length
    modifies a
    ensures end - 20 <= p <= end
    ensures a[p..end] == Text(Digits(10, n), false)
    ensures forall j :: 0 <= j < a.Length && !(end - 20 <= j < end) ==> a[j] == old(a[j])
  {
    PutGroups(a, end, n);
    TwentyDigits();
    p := StripZeros(a, end - 20, end, n);
  }

  lemma ShowsPadded(s: seq<byte>, lo: nat, hi: nat, n: nat)
    requires Shows(s, lo, hi, n)
    requires n < Pow(10, hi - lo)
    ensures
      var ds := Digits(10, n);
      && lo <= hi - |ds|
      && (forall j :: lo <= j < hi - |ds| ==> s[j] == '0' as int)
      && s[hi - |ds|..hi] == Text(ds, false)
      && (ds != [] ==> s[hi - |ds|] != '0' as int)
  {
    FixedIsPadded(hi - lo, n);
    DigitsDenote(10, n);
  }

  /** Skips the leading zeros that a fixed-width conversion leaves. */
  method StripZeros(a: array<byte>, start: nat, end: nat, ghost n: nat) returns (p: nat)
    requires start <= end <= a.Length
    requires n < Pow(10, end - start)
    requires Shows(a[..], start, end, n)
    ensures start <= p <= end
    ensures a[p..end] == Text(Digits(10, n), false)
  {
    ShowsPadded(a[..], start, end, n);
    ghost var first := end - |Digits(10, n)|;
    p := start;
    while p < end && a[p] == '0' as int
      invariant start <= p <= first
    {
      p := p + 1;
    }
  }

  /** Every octal or hexadecimal digit stands for at least three bits. */
  lemma {:induction false} DigitsLength(base: nat, n: nat, k: nat)
    requires base == 8 || base == 16
    requires n < Pow(8, k)
    ensures |Digits(base, n)| <= k
  {
    if n > 0 {
      DigitsLength(base, n / base, k - 1);
    }
  }

  lemma PowerStep(k: nat)
    ensures Pow(8, k + 4) == 4096 * Pow(8, k)
  {
    assert Pow(8, k + 4) == 8 * Pow(8, k + 3);
    assert Pow(8, k + 3) == 8 * Pow(8, k + 2);
    assert Pow(8, k + 2) == 8 * Pow(8, k + 1);
  }

  /** A 64-bit number fits the 22 characters that vsnprintf reserves for it. */
  lemma NumberFits(base: nat, num: u64)
    requires base == 8 || base == 16
    ensures |Digits(base, num)| <= 22
  {
    var k := 1;
    assert Pow(8, k) == 8 * Pow(8, k - 1);
    assert Pow(8, k + 1) == 8 * Pow(8, k);
    PowerStep(k + 1);
    PowerStep(k + 5);
    PowerStep(k + 9);
    PowerStep(k + 13);
    PowerStep(k + 17);
    DigitsLength(base, num, k + 21);
  }

  /** The part of a conversion still to be written, and the part already in the buffer. */
  ghost predicate Pending(a: seq<byte>, p: nat, end: nat, base: nat, num: nat, n: nat, lower: bool)
    requires base == 8 || base == 16
  {
    var all, rest := Digits(base, num), Digits(base, n);
    && p <= end <= |a|
    && |all| == |rest| + (end - p)
    && rest == all[..|rest|]
    && forall j :: p <= j < end ==> a[j] == DigitChar(all[j - p + |rest|], lower)
  }

  lemma PendingStep(a: seq<byte>, b: seq<byte>, p: nat, end: nat, base: nat, num: nat, n: nat, lower: bool)
    requires base == 8 || base == 16
    requires Pending(a, p, end, base, num, n, lower)
    requires n != 0 && 0 < p && |a| == |b|
    requires b[p - 1] == DigitChar(n % base, lower)
    requires forall j :: p <= j < end ==> b[j] == a[j]
    ensures Pending(b, p - 1, end, base, num, n / base, lower)
  {
    var all, rest, next := Digits(base, num), Digits(base, n), Digits(base, n / base);
    assert rest == next + [n % base];
    assert all[|next|] == rest[|next|];
  }

  /** When nothing is pending the whole text is in the buffer. */
  lemma PendingDone(a: seq<byte>, p: nat, end: nat, base: nat, num: u64, lower: bool)
    requires base == 8 || base == 16
    requires Pending(a, p, end, base, num, 0, lower) && 22 <= end
    ensures end - 22 <= p <= end <= |a| && a[p..end] == Text(Digits(base, num), lower)
  {
    NumberFits(base, num);
  }

  lemma PendingRoom(a: seq<byte>, p: nat, end: nat, base: nat, num: u64, n: nat, lower: bool)
    requires base == 8 || base == 16
    requires Pending(a, p, end, base, num, n, lower) && 22 <= end && n != 0
    ensures p > 0
  {
    NumberFits(base, num);
  }

  /** The base 8 loop of Number. */
  method PutOctal(a: array<byte>, end: nat, num: u64, lower: bool) returns (p: nat)
    requires 22 <= end <= a.Length
    modifies a
    ensures end - 22 <= p <= end
    ensures a[p..end] == Text(Digits(8, num), lower)
  {
    p := end;
    var n := num;
    ghost var base: nat := 8;
    while n != 0
      invariant Pending(a[..], p, end, base, num, n, lower)
    {
      ghost var before := a[..];
      PendingRoom(before, p, end, base, num, n, lower);
      p := p - 1;
      a[p] := '0' as int + n % 8;
      PendingStep(before, a[..], p + 1, end, base, num, n, lower);
      n := n / 8;
    }
    PendingDone(a[..], p, end, base, num, lower);
  }

  /** The base 16 loop of Number. */
  method PutHex(a: array<byte>, end: nat, num: u64, lower: bool) returns (p: nat)
    requires 22 <= end <= a.Length
    modifies a
    ensures end - 22 <= p <= end
    ensures a[p..end] == Text(Digits(16, num), lower)
  {
    p := end;
    var n := num;
    ghost var base: nat := 16;
    while n != 0
      invariant Pending(a[..], p, end, base, num, n, lower)
    {
      ghost var before := a[..];
      PendingRoom(before, p, end, base, num, n, lower);
      p := p - 1;
      a[p] := DigitChar(n % 16, lower);
      PendingStep(before, a[..], p + 1, end, base, num, n, lower);
      n := n / 16;
    }
    PendingDone(a[..], p, end, base, num, lower);
  }

  /** Writes num in base 8, 10 or 16 so that it ends at `end`; zero writes nothing. */
  method Number(a: array<byte>, end: nat, num: u64, base: nat, lower: bool) returns (p: nat)
    requires base == 8 || base == 10 || base == 16
    requires 22 <= end <= a.Length
    modifies a
    ensures end - 22 <= p <= end
    ensures a[p..end] == Text(Digits(base, num), lower)
  {
    p := end;
    if base == 10 {
      if num != 0 {
        p := PutDec(a, end, num);
        assert Text(Digits(10, num), false) == Text(Digits(10, num), lower);
      }
    } else if base == 8 {
      p := PutOctal(a, end, num, lower);
    } else {
      p := PutHex(a, end, num, lower);
    }
  }
}
