/** The output side of vsnprintf in lib/vsprintf.c: characters are counted without limit, but
    stored only while they fit, and a multi-byte character is stored whole or not at all. */
module Output {
  import opened Machine
  import opened Utf16

  /** One output character: a single byte, or the UTF-8 bytes of one code point. */
  type Glyph = g: seq<byte> | 1 <= |g| <= 4 witness [0]

  function Bytes(gs: seq<Glyph>): seq<byte> {
    if gs == [] then [] else gs[0] + Bytes(gs[1..])
  }

  function Length(gs: seq<Glyph>): (n: nat)
    ensures n == |Bytes(gs)|
  {
    if gs == [] then 0 else |gs[0]| + Length(gs[1..])
  }

  lemma Associate<T>(a: seq<T>, b: seq<T>, c: seq<T>)
    ensures a + (b + c) == a + b + c
  {
  }

  lemma TailOfSum<T>(a: seq<T>, b: seq<T>)
    requires a != []
    ensures a + b != [] && (a + b)[0] == a[0] && (a + b)[1..] == a[1..] + b
  {
  }

  lemma {:induction false} BytesAdd(a: seq<Glyph>, b: seq<Glyph>)
    ensures Bytes(a + b) == Bytes(a) + Bytes(b)
    ensures Length(a + b) == Length(a) + Length(b)
  {
    if a == [] {
      assert a + b == b;
    } else {
      TailOfSum(a, b);
      BytesAdd(a[1..], b);
      Associate(a[0], Bytes(a[1..]), Bytes(b));
    }
  }

  lemma BytesOne(g: Glyph)
    ensures Bytes([g]) == g && Length([g]) == |g|
  {
    assert Bytes([g]) == g + Bytes([]);
  }

  /** The length of the longest run of leading whole characters that leaves room for the
      final NUL in a buffer of the given size. */
  function Kept(gs: seq<Glyph>, size: nat): nat {
    if gs == [] then 0
    else
      var front, w := gs[..|gs| - 1], |gs[|gs| - 1]|;
      var k := Kept(front, size);
      if k == Length(front) && k + w < size then k + w else k
  }

  lemma LastOne(gs: seq<Glyph>)
    requires gs != []
    ensures
      var front, g := gs[..|gs| - 1], gs[|gs| - 1];
      gs == front + [g] && Bytes(gs) == Bytes(front) + g && Length(gs) == Length(front) + |g|
  {
    var front, g := gs[..|gs| - 1], gs[|gs| - 1];
    assert gs == front + [g];
    BytesAdd(front, [g]);
    BytesOne(g);
  }

  lemma {:induction false} KeptBounds(gs: seq<Glyph>, size: nat)
    ensures Kept(gs, size) <= Length(gs)
    ensures Kept(gs, size) < size || Kept(gs, size) == 0
    ensures Kept(gs, size) < Length(gs) ==> size <= Length(gs)
  {
    if gs != [] {
      LastOne(gs);
      KeptBounds(gs[..|gs| - 1], size);
    }
  }

  /** When the last character is cut off, what is kept is what was kept of those before it. */
  lemma CutKeeps(gs: seq<Glyph>, size: nat, front: seq<Glyph>, g: Glyph)
    requires gs == front + [g] && Kept(gs, size) < Length(gs)
    ensures Kept(gs, size) == Kept(front, size) <= Length(front)
    ensures Bytes(gs) == Bytes(front) + g
    ensures size <= Length(gs) && (Kept(front, size) < Length(front) ==> size <= Length(front))
  {
    assert gs[..|gs| - 1] == front;
    LastOne(gs);
    KeptBounds(gs, size);
    KeptBounds(front, size);
  }

  /** Kept cuts between characters, as late as the size allows. */
  lemma {:induction false} KeptIsLongest(gs: seq<Glyph>, size: nat) returns (j: nat)
    ensures j <= |gs|
    ensures Kept(gs, size) == Length(gs[..j])
    ensures j < |gs| ==> size <= Length(gs[..j + 1])
    ensures Kept(gs, size) == Length(gs) ==> j == |gs|
  {
    j := |gs|;
    assert gs[..j] == gs;
    KeptBounds(gs, size);
    if Kept(gs, size) < Length(gs) {
      var front := gs[..|gs| - 1];
      assert gs == front + [gs[|gs| - 1]];
      CutKeeps(gs, size, front, gs[|gs| - 1]);
      j := KeptIsLongest(front, size);
      PrefixSame(gs, front, j);
    }
  }

  lemma PrefixSame(gs: seq<Glyph>, front: seq<Glyph>, j: nat)
    requires gs != [] && front == gs[..|gs| - 1] && j <= |front|
    ensures gs[..j] == front[..j]
    ensures if j < |front| then gs[..j + 1] == front[..j + 1] else gs[..j + 1] == gs
  {
  }

  /** When every character is one byte, truncation is plain truncation. */
  lemma {:induction false} KeptSingles(gs: seq<Glyph>, size: nat)
    requires forall i :: 0 <= i < |gs| ==> |gs[i]| == 1
    ensures Length(gs) == |gs|
    ensures size > 0 ==> Kept(gs, size) == Min(|gs|, size - 1)
  {
    if gs != [] {
      LastOne(gs);
      KeptSingles(gs[..|gs| - 1], size);
    }
  }

  /** Whether a character of n bytes at position `at` is stored: a single byte within the size, more
      only if the final NUL still fits behind them. */
  predicate HasRoom(size: nat, at: nat, n: nat) {
    at + n < size || (n == 1 && at < size)
  }

  /** The buffer after one more character, at position `at`: stored if it fits, and cut off by
      a NUL if it has several bytes and does not fit. */
  function Store(b: seq<byte>, size: nat, at: nat, g: Glyph): (r: seq<byte>)
    ensures |r| == |b|
  {
    seq(|b|, i requires 0 <= i < |b| => StoredAt(b, size, at, g, i))
  }

  function StoredAt(b: seq<byte>, size: nat, at: nat, g: Glyph, i: nat): byte
    requires i < |b|
  {
    if HasRoom(size, at, |g|) && at <= i < at + |g| then g[i - at]
    else if !HasRoom(size, at, |g|) && i == at < size then 0
    else b[i]
  }

  /** The buffer after more characters, the first of them at position `at`. */
  function Emit(b: seq<byte>, size: nat, at: nat, gs: seq<Glyph>): (r: seq<byte>)
    ensures |r| == |b|
    decreases |gs|
  {
    if gs == [] then b else Emit(Store(b, size, at, gs[0]), size, at + |gs[0]|, gs[1..])
  }

  lemma EmitStep(b: seq<byte>, size: nat, at: nat, gs: seq<Glyph>, g: Glyph, rest: seq<Glyph>)
    requires gs == [g] + rest
    ensures Emit(b, size, at, gs) == Emit(Store(b, size, at, g), size, at + |g|, rest)
    ensures Length(gs) == |g| + Length(rest)
  {
    assert gs[1..] == rest;
  }

  /** Characters are put out one after the other. */
  lemma {:induction false} EmitAdd(b: seq<byte>, size: nat, at: nat, x: seq<Glyph>, y: seq<Glyph>)
    ensures Emit(b, size, at, x + y) == Emit(Emit(b, size, at, x), size, at + Length(x), y)
    decreases |x|
  {
    if x == [] {
      assert x + y == y;
    } else {
      var g, rest := x[0], x[1..];
      var b', at', whole := Store(b, size, at, g), at + |g|, rest + y;
      assert x == [g] + rest && x + y == [g] + whole;
      EmitStep(b, size, at, x, g, rest);
      EmitStep(b, size, at, x + y, g, whole);
      EmitAdd(b', size, at', rest, y);
      assert at' + Length(rest) == at + Length(x);
    }
  }

  lemma EmitOne(b: seq<byte>, size: nat, at: nat, g: Glyph)
    ensures Emit(b, size, at, [g]) == Store(b, size, at, g)
    ensures Length([g]) == |g|
  {
    assert [g][1..] == [];
  }

  /** A buffer that held `init` before the characters gs were put out: it holds the leading
      whole characters that fit, a NUL where a cut character began, and otherwise what it held. */
  ghost predicate Holds(buf: seq<byte>, init: seq<byte>, size: nat, gs: seq<Glyph>) {
    var k, n := Kept(gs, size), Length(gs);
    && |buf| == |init| && k <= n && k <= |buf| && size <= |buf|
    && (forall i :: 0 <= i < k ==> buf[i] == Bytes(gs)[i])
    && (k < n && k + 1 < size ==> buf[k] == 0)
    && (forall i :: k <= i < |buf| && (k == n || k < i || size <= i) ==> buf[i] == init[i])
  }

  /** A character that fits is stored behind those before it. */
  lemma StoreWhole(b: seq<byte>, init: seq<byte>, size: nat, front: seq<byte>, g: Glyph, all: seq<byte>)
    requires size <= |b| == |init| && |front| + |g| < size && all == front + g
    requires forall i :: 0 <= i < |front| ==> b[i] == front[i]
    requires forall i :: |front| <= i < |b| ==> b[i] == init[i]
    ensures
      var r := Store(b, size, |front|, g);
      && (forall i :: 0 <= i < |all| ==> r[i] == all[i])
      && (forall i :: |all| <= i < |b| ==> r[i] == init[i])
  {
  }

  lemma HoldsWhole(b: seq<byte>, init: seq<byte>, size: nat, gs: seq<Glyph>)
    requires size <= |b| && gs != []
    requires Holds(b, init, size, gs[..|gs| - 1])
    requires Kept(gs, size) == Length(gs)
    ensures Holds(Store(b, size, Length(gs[..|gs| - 1]), gs[|gs| - 1]), init, size, gs)
  {
    LastOne(gs);
    KeptBounds(gs[..|gs| - 1], size);
    KeptBounds(gs, size);
    StoreWhole(b, init, size, Bytes(gs[..|gs| - 1]), gs[|gs| - 1], Bytes(gs));
  }

  /** A character that does not fit changes at most the byte behind the k that were kept. */
  lemma StoreCut(b: seq<byte>, size: nat, n: nat, k: nat, g: Glyph)
    requires size <= |b| && k <= n && (k < n ==> size <= n) && (k == n ==> size <= n + |g|)
    ensures
      var r := Store(b, size, n, g);
      && (forall i :: 0 <= i < |b| && (i != k || size <= i || k < n) ==> r[i] == b[i])
      && (k == n && k + 1 < size ==> r[k] == 0)
  {
  }

  lemma HoldsCut(b: seq<byte>, init: seq<byte>, size: nat, gs: seq<Glyph>, front: seq<Glyph>, g: Glyph)
    requires size <= |b| && gs == front + [g] && Holds(b, init, size, front)
    requires Kept(gs, size) < Length(gs)
    ensures Holds(Store(b, size, Length(front), g), init, size, gs)
  {
    CutKeeps(gs, size, front, g);
    StoreCut(b, size, Length(front), Kept(gs, size), g);
  }

  lemma EmitLast(b: seq<byte>, size: nat, at: nat, gs: seq<Glyph>, front: seq<Glyph>, g: Glyph)
    requires gs == front + [g]
    ensures Emit(b, size, at, gs) == Store(Emit(b, size, at, front), size, at + Length(front), g)
  {
    EmitAdd(b, size, at, front, [g]);
    EmitOne(Emit(b, size, at, front), size, at + Length(front), g);
  }

  lemma HoldsNext(b: seq<byte>, init: seq<byte>, size: nat, gs: seq<Glyph>, front: seq<Glyph>, g: Glyph)
    requires size <= |b| && gs == front + [g] && Holds(b, init, size, front)
    ensures Holds(Store(b, size, Length(front), g), init, size, gs)
  {
    assert gs[..|gs| - 1] == front;
    KeptBounds(gs, size);
    if Kept(gs, size) == Length(gs) {
      HoldsWhole(b, init, size, gs);
    } else {
      HoldsCut(b, init, size, gs, front, g);
    }
  }

  lemma {:induction false} EmitHolds(init: seq<byte>, size: nat, gs: seq<Glyph>)
    requires size <= |init|
    ensures Holds(Emit(init, size, 0, gs), init, size, gs)
  {
    if gs != [] {
      var front, g := gs[..|gs| - 1], gs[|gs| - 1];
      assert gs == front + [g];
      EmitHolds(init, size, front);
      EmitLast(init, size, 0, gs, front, g);
      HoldsNext(Emit(init, size, 0, front), init, size, gs, front, g);
    }
  }

  /** PUTC: count the character, and store it if there is room. */
  method PutC(buf: array<byte>, size: nat, pos: nat, c: byte) returns (next: nat)
    requires size <= buf.Length
    modifies buf
    ensures buf[..] == Store(old(buf[..]), size, pos, [c])
    ensures next == pos + 1
  {
    if pos < size {
      buf[pos] := c;
    }
    next := pos + 1;
  }

  function Repeat(c: byte, n: nat): seq<Glyph> {
    seq(n, i => [c])
  }

  /** Each byte as a character of its own. */
  function Singles(bs: seq<byte>): seq<Glyph> {
    seq(|bs|, i requires 0 <= i < |bs| => [bs[i]])
  }

  function Glyphs(cs: seq<nat>): seq<Glyph>
    requires AllScalar(cs)
  {
    seq(|cs|, i requires 0 <= i < |cs| => Utf8(cs[i]))
  }

  /** One character split off at the front. */
  lemma EmitFirst(b: seq<byte>, size: nat, at: nat, g: Glyph, gs: seq<Glyph>)
    requires gs != [] && gs[0] == g
    ensures Emit(b, size, at, gs) == Emit(Store(b, size, at, g), size, at + |g|, gs[1..])
    ensures Length(gs) == |g| + Length(gs[1..])
  {
  }

  /** PUTC of the first of several characters. */
  method PutFirst(buf: array<byte>, size: nat, pos: nat, c: byte, ghost all: seq<Glyph>) returns (next: nat)
    requires size <= buf.Length
    requires all != [] && all[0] == [c]
    modifies buf
    ensures Emit(buf[..], size, next, all[1..]) == Emit(old(buf[..]), size, pos, all)
    ensures next + Length(all[1..]) == pos + Length(all)
  {
    EmitFirst(buf[..], size, pos, [c], all);
    next := PutC(buf, size, pos, c);
  }

  /** The characters gs have been put out: what is still to come, `more`, takes the buffer from
      the present state to where gs + more take it from the earlier one. */
  ghost predicate Puts(before: seq<byte>, pos: nat, after: seq<byte>, next: nat, size: nat, gs: seq<Glyph>,
                       more: seq<Glyph>)
  {
    && Emit(after, size, next, more) == Emit(before, size, pos, gs + more)
    && next + Length(more) == pos + Length(gs + more)
  }

  /** Puts out c as often as `count` says; a negative count means not at all. */
  method PutRepeated(buf: array<byte>, size: nat, pos: nat, c: byte, count: int, ghost more: seq<Glyph>)
    returns (next: nat)
    requires size <= buf.Length
    modifies buf
    ensures Puts(old(buf[..]), pos, buf[..], next, size, Repeat(c, Max(count, 0)), more)
  {
    next := pos;
    var left := count;
    ghost var rest := Repeat(c, Max(count, 0)) + more;
    ghost var all, total := Emit(buf[..], size, pos, rest), pos + Length(rest);
    while left > 0
      invariant rest == Repeat(c, Max(left, 0)) + more
      invariant Emit(buf[..], size, next, rest) == all
      invariant next + Length(rest) == total
    {
      next := PutFirst(buf, size, next, c, rest);
      TailOfSum(Repeat(c, left), more);
      rest := rest[1..];
      left := left - 1;
    }
    assert rest == more;
  }

  lemma SinglesNext(s: seq<byte>, i: nat, rest: seq<Glyph>, more: seq<Glyph>)
    requires i < |s| && rest == Singles(s[i..]) + more
    ensures rest != [] && rest[0] == [s[i]] && rest[1..] == Singles(s[i + 1..]) + more
  {
    TailOfSum(Singles(s[i..]), more);
    assert Singles(s[i..])[1..] == Singles(s[i + 1..]);
  }

  /** Puts out a narrow string. */
  method PutText(buf: array<byte>, size: nat, pos: nat, s: seq<byte>, ghost more: seq<Glyph>) returns (next: nat)
    requires size <= buf.Length
    modifies buf
    ensures Puts(old(buf[..]), pos, buf[..], next, size, Singles(s), more)
  {
    next := pos;
    var i := 0;
    ghost var rest := Singles(s) + more;
    ghost var all, total := Emit(buf[..], size, pos, rest), pos + Length(rest);
    assert s[0..] == s;
    while i < |s|
      invariant i <= |s| && rest == Singles(s[i..]) + more
      invariant Emit(buf[..], size, next, rest) == all
      invariant next + Length(rest) == total
    {
      SinglesNext(s, i, rest, more);
      next := PutFirst(buf, size, next, s[i], rest);
      rest := rest[1..];
      i := i + 1;
    }
    assert rest == more;
  }

  /** Bitwise or of two values without a common bit. */
  function DisjointOr(high: nat, low: nat, unit: nat): nat
    requires unit > 0 && high % unit == 0 && low < unit
  {
    high + low
  }

  /** Stores a code point of `clen` trailing bytes at position `at`, the last byte first. */
  method StoreUtf8(buf: array<byte>, at: nat, clen: nat, c32: nat)
    requires 0x80 <= c32 < 0x11_0000
    requires clen == Width(c32) - 1
    requires at + clen < buf.Length
    modifies buf
    ensures forall i :: 0 <= i <= clen ==> buf[at + i] == Utf8(c32)[i]
    ensures forall i :: 0 <= i < buf.Length && !(at <= i <= at + clen) ==> buf[i] == old(buf[i])
  {
    buf[at] := 0xf00 / 2 / (if clen == 1 then 2 else if clen == 2 then 4 else 8) % 0x100;
    var k, c := clen, c32;
    while k > 0
      invariant 0 <= k <= clen
      invariant
        c == if k == clen then c32
             else if k == clen - 1 then c32 / 0x40
             else if k == clen - 2 then c32 / 0x1000
             else c32 / 0x4_0000
      invariant forall i :: k < i <= clen ==> buf[at + i] == Utf8(c32)[i]
      invariant buf[at] == if clen == 1 then 0xC0 else if clen == 2 then 0xE0 else 0xF0
      invariant forall i :: 0 <= i < buf.Length && !(at <= i <= at + clen) ==> buf[i] == old(buf[i])
    {
      buf[at + k] := DisjointOr(0x80, c % 0x40, 0x40);
      k := k - 1;
      c := c / 0x40;
    }
    buf[at] := DisjointOr(buf[at], c, if clen == 1 then 0x20 else 0x10);
  }

  /** Puts out one code point that needs more than one byte. */
  method PutMultibyte(buf: array<byte>, size: nat, pos: nat, c32: nat, clen: nat) returns (next: nat)
    requires size <= buf.Length
    requires 0x80 <= c32 < 0x11_0000
    requires clen == Width(c32) - 1
    modifies buf
    ensures buf[..] == Store(old(buf[..]), size, pos, Utf8(c32))
    ensures next == pos + Width(c32)
  {
    if pos < size {
      buf[pos] := 0;
    }
    next := pos + 1 + clen;
    if next < size {
      StoreUtf8(buf, pos, clen, c32);
    }
  }

  /** One code point of the wide loop, the first of `all`; `extra` is how many bytes it takes
      beyond the first. */
  method PutCodePoint(buf: array<byte>, size: nat, pos: nat, c32: nat, ghost all: seq<Glyph>)
    returns (next: nat, extra: nat)
    requires size <= buf.Length
    requires c32 < 0x11_0000
    requires all != [] && all[0] == Utf8(c32)
    modifies buf
    ensures Emit(buf[..], size, next, all[1..]) == Emit(old(buf[..]), size, pos, all)
    ensures next + Length(all[1..]) == pos + Length(all)
    ensures extra == Width(c32) - 1
  {
    EmitFirst(buf[..], size, pos, Utf8(c32), all);
    if c32 < 0x80 {
      next := PutC(buf, size, pos, c32);
      extra := 0;
    } else {
      extra := 1 + (if c32 >= 0x800 then 1 else 0) + (if c32 >= 0x10000 then 1 else 0);
      next := PutMultibyte(buf, size, pos, c32, extra);
    }
  }

  /** The wide loop at position p: `len` bytes are to come, and `left` bounds them. */
  ghost predicate WideAt(s: seq<u16>, room: nat, p: nat, here: seq<u16>, len: nat, left: nat) {
    && p <= |Words(s)| && p + left <= room
    && here == Words(s)[p..]
    && len == Size(here, left)
  }

  lemma WideStep(s: seq<u16>, room: nat, p: nat, here: seq<u16>, len: nat, left: nat)
    returns (c: nat, next: nat, there: seq<u16>, rest: nat)
    requires WideAt(s, room, p, here, len, left)
    requires Readable(s, room) && len > 0
    ensures p < |Words(s)| && (IsHigh(s[p]) ==> p + 1 < |s|)
    ensures IsScalar(c) && c == First(here) && next == p + (if StartsPair(here) then 2 else 1)
    ensures Width(c) <= len && WideAt(s, room, next, there, len - Width(c), rest)
    ensures Taken(here, left) == [c] + Taken(there, rest)
  {
    c, there, rest := StartsSized(here, left);
    AtPosition(s, p);
    next := p + if StartsPair(here) then 2 else 1;
  }

  /** Bytes left to come mean that a first character was taken. */
  lemma StartsSized(here: seq<u16>, left: nat) returns (c: nat, there: seq<u16>, rest: nat)
    requires Size(here, left) > 0
    ensures here != [] && (IsHigh(here[0]) ==> left > 3)
    ensures c == First(here) && there == Rest(here) && left == Width(c) + rest
    ensures Size(here, left) == Width(c) + Size(there, rest)
    ensures Taken(here, left) == [c] + Taken(there, rest)
  {
    c, there := First(here), Rest(here);
    rest := left - Width(c);
  }

  lemma GlyphsFirst(cs: seq<nat>, c: nat, rest: seq<nat>, more: seq<Glyph>)
    requires AllScalar(cs) && AllScalar(rest) && IsScalar(c) && cs == [c] + rest
    ensures
      var all := Glyphs(cs) + more;
      all != [] && all[0] == Utf8(c) && all[1..] == Glyphs(rest) + more
  {
  }

  /** The wide output loop: `len` counts down from the measured size and ends at exactly zero. */
  method PutWide(buf: array<byte>, size: nat, pos: nat, s: seq<u16>, size8: nat, ghost room: nat,
                 ghost more: seq<Glyph>)
    returns (next: nat)
    requires size <= buf.Length
    requires Readable(s, room)
    requires size8 == Size(Words(s), room)
    modifies buf
    ensures Puts(old(buf[..]), pos, buf[..], next, size, Glyphs(Taken(Words(s), room)), more)
  {
    next := pos;
    var len, p := size8, 0;
    ghost var here, left: nat, rest := Words(s), room, Glyphs(Taken(Words(s), room)) + more;
    ghost var all, total := Emit(buf[..], size, pos, rest), pos + Length(rest);
    while len > 0
      invariant WideAt(s, room, p, here, len, left)
      invariant rest == Glyphs(Taken(here, left)) + more
      invariant Emit(buf[..], size, next, rest) == all
      invariant next + Length(rest) == total
    {
      ghost var c, q, there, bound := WideStep(s, room, p, here, len, left);
      GlyphsFirst(Taken(here, left), c, Taken(there, bound), more);
      len := len - 1;
      var c32;
      c32, p := ToUtf32(s, p);
      var extra;
      next, extra := PutCodePoint(buf, size, next, c32, rest);
      len := len - extra;
      here, left, rest := there, bound, rest[1..];
    }
    assert rest == more;
  }
}
