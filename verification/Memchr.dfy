/** lib/_string.c: memchr_inv, which scans a word at a time for the first byte that differs. */
module Memchr {
  datatype Found = At(index: nat) | Nowhere

  /** The plain scan: the first byte from `from` on, out of n, that is not v. */
  function Scan(mem: seq<bv8>, from: nat, n: nat, v: bv8): (r: Found)
    requires from + n <= |mem|
    ensures r.Nowhere? ==> forall k :: from <= k < from + n ==> mem[k] == v
    ensures r.At? ==> from <= r.index < from + n && mem[r.index] != v
    ensures r.At? ==> forall k :: from <= k < r.index ==> mem[k] == v
    decreases n, from
  {
    if n == 0 then Nowhere else if mem[from] != v then At(from) else Scan(mem, from + 1, n - 1, v)
  }

  /** Only the first part that holds a different byte matters. */
  lemma {:induction false} ScanParts(mem: seq<bv8>, from: nat, a: nat, b: nat, v: bv8)
    requires from + a + b <= |mem|
    ensures Scan(mem, from, a + b, v) ==
            if Scan(mem, from, a, v).At? then Scan(mem, from, a, v) else Scan(mem, from + a, b, v)
    decreases a
  {
    if a > 0 {
      ScanParts(mem, from + 1, a - 1, b, v);
    }
  }

  /** The 64-bit word at an address, lowest byte first. */
  function Word(mem: seq<bv8>, from: nat): bv64
    requires from + 8 <= |mem|
  {
    Pack(mem[from], mem[from + 1], mem[from + 2], mem[from + 3],
         mem[from + 4], mem[from + 5], mem[from + 6], mem[from + 7])
  }

  function Pack(a: bv8, b: bv8, c: bv8, d: bv8, e: bv8, f: bv8, g: bv8, h: bv8): bv64 {
    (a as bv64) | ((b as bv64) << 8) | ((c as bv64) << 16) | ((d as bv64) << 24)
    | ((e as bv64) << 32) | ((f as bv64) << 40) | ((g as bv64) << 48) | ((h as bv64) << 56)
  }

  /** The byte in all eight places of a word, built by doubling. */
  function Spread(v: bv8): bv64 {
    var a := v as bv64;
    var b := a | (a << 8);
    var c := b | (b << 16);
    c | (c << 32)
  }

  lemma PackIsSpread(a: bv8, b: bv8, c: bv8, d: bv8, e: bv8, f: bv8, g: bv8, h: bv8, v: bv8)
    ensures Pack(a, b, c, d, e, f, g, h) == Spread(v) <==> a == b == c == d == e == f == g == h == v
  {
  }

  lemma ScanEight(mem: seq<bv8>, from: nat, v: bv8)
    requires from + 8 <= |mem|
    ensures Scan(mem, from, 8, v).Nowhere? <==>
            mem[from] == mem[from + 1] == mem[from + 2] == mem[from + 3]
            == mem[from + 4] == mem[from + 5] == mem[from + 6] == mem[from + 7] == v
  {
    var r := Scan(mem, from, 8, v);
    if r.At? {
      assert mem[from + (r.index - from)] != v;
    }
  }

  /** The address of a whole word. */
  predicate Aligned(address: nat) {
    address % 8 == 0
  }

  lemma NextAligned(address: nat)
    requires Aligned(address)
    ensures Aligned(address + 8)
  {
  }

  /** The comparison of one word at an aligned address: it differs from the pattern exactly when
      the plain scan finds a different byte in it. */
  method WordDiffers(mem: seq<bv8>, ghost address: nat, from: nat, word: bv64, ghost v: bv8) returns (differs: bool)
    requires from + 8 <= |mem| && word == Spread(v)
    requires Aligned(address + from)
    ensures differs <==> Scan(mem, from, 8, v).At?
  {
    PackIsSpread(mem[from], mem[from + 1], mem[from + 2], mem[from + 3],
                 mem[from + 4], mem[from + 5], mem[from + 6], mem[from + 7], v);
    ScanEight(mem, from, v);
    differs := Word(mem, from) != word;
  }

  /** check_bytes8 */
  method CheckBytes(mem: seq<bv8>, start: nat, v: bv8, bytes: nat) returns (r: Found)
    requires start + bytes <= |mem|
    ensures r == Scan(mem, start, bytes, v)
  {
    var p: nat, n: nat := start, bytes;
    while n > 0
      invariant n <= bytes && p == start + bytes - n
      invariant Scan(mem, start, bytes, v) == Scan(mem, p, n, v)
    {
      if mem[p] != v {
        return At(p);
      }
      p, n := p + 1, n - 1;
    }
    r := Nowhere;
  }

  /** The first word decides, or the scan goes on behind it. */
  lemma FirstWord(mem: seq<bv8>, p: nat, n: nat, rest: nat, v: bv8)
    requires n == 8 + rest && p + n <= |mem|
    ensures Scan(mem, p, 8, v).At? ==> Scan(mem, p, n, v) == Scan(mem, p, 8, v)
    ensures Scan(mem, p, 8, v).Nowhere? ==> Scan(mem, p, n, v) == Scan(mem, p + 8, rest, v)
  {
    ScanParts(mem, p, 8, rest, v);
  }

  /** Lines 852-861: whole words, then the bytes behind them. */
  method ScanWords(mem: seq<bv8>, ghost address: nat, start: nat, word: bv64, v: bv8, count: nat, tail: nat)
    returns (r: Found)
    requires start + 8 * count + tail <= |mem| && word == Spread(v) && Aligned(address + start)
    ensures r == Scan(mem, start, 8 * count + tail, v)
  {
    var p: nat, words: nat := start, count;
    while words > 0
      invariant p + 8 * words + tail <= |mem| && Aligned(address + p)
      invariant Scan(mem, start, 8 * count + tail, v) == Scan(mem, p, 8 * words + tail, v)
    {
      FirstWord(mem, p, 8 * words + tail, 8 * (words - 1) + tail, v);
      var differs := WordDiffers(mem, address, p, word, v);
      if differs {
        r := CheckBytes(mem, p, v, 8);
        return;
      }
      NextAligned(address + p);
      p, words := p + 8, words - 1;
    }
    r := CheckBytes(mem, p, v, tail);
  }

  /** How many bytes lie before the next aligned address. */
  function ToAligned(address: nat): (n: nat)
    ensures n < 8 && Aligned(address + n)
  {
    if address % 8 > 0 then 8 - address % 8 else 0
  }

  /** The part behind the bytes before the first aligned address. */
  method ScanAligned(mem: seq<bv8>, ghost address: nat, start: nat, v: bv8, bytes: nat) returns (r: Found)
    requires start + bytes <= |mem| && Aligned(address + start)
    ensures r == Scan(mem, start, bytes, v)
  {
    var count, tail := bytes / 8, bytes % 8;
    assert bytes == 8 * count + tail;
    r := ScanWords(mem, address, start, Spread(v), v, count, tail);
  }

  /** memchr_inv; the buffer lies at the address `address`. */
  method MemchrInv(mem: seq<bv8>, address: nat, start: nat, v: bv8, size: nat) returns (r: Found)
    requires start + size <= |mem|
    ensures r == Scan(mem, start, size, v)
  {
    if size <= 16 {
      r := CheckBytes(mem, start, v, size);
      return;
    }
    var prefix := ToAligned(address + start);
    ScanParts(mem, start, prefix, size - prefix, v);
    if prefix > 0 {
      r := CheckBytes(mem, start, v, prefix);
      if r.At? {
        return;
      }
    }
    r := ScanAligned(mem, address, start + prefix, v, size - prefix);
  }
}
