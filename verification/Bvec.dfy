/** The scatter-gather iterators of include/linux/bvec.h.  A bulk advance, a single-step advance
    and a walk page by page denote the same sequence of byte addresses. */
module Bvec {
  import opened Machine

  /** struct bio_vec; pages are numbered consecutively. */
  datatype BioVec = BioVec(page: nat, len: u32, offset: u32) {
    /** The address of byte k. */
    function Address(k: nat): nat {
      page * PAGE_SIZE + offset + k
    }

    predicate Valid() {
      offset + len < TWO32
    }
  }

  /** The value of a struct bvec_iter; the sector is not touched by the operations here. */
  datatype Iter = Iter(size: u32, idx: nat, done: u32)

  predicate AllValid(bvs: seq<BioVec>) {
    forall i :: 0 <= i < |bvs| ==> bvs[i].Valid()
  }

  /** The number of bytes from vector idx on. */
  function Avail(bvs: seq<BioVec>, idx: nat): nat
    decreases |bvs| - idx
  {
    if idx >= |bvs| then 0 else bvs[idx].len + Avail(bvs, idx + 1)
  }

  /** The iterator stands inside a vector, or at the start of one or at the end; what it still has
      to cover is there. */
  predicate Inside(bvs: seq<BioVec>, it: Iter) {
    && AllValid(bvs)
    && it.idx <= |bvs|
    && (it.done > 0 ==> it.idx < |bvs| && it.done < bvs[it.idx].len)
    && it.done + it.size <= Avail(bvs, it.idx)
    && it.done + it.size < TWO32
  }

  predicate NonEmpty(bvs: seq<BioVec>) {
    forall i :: 0 <= i < |bvs| ==> bvs[i].len > 0
  }

  /** No vector is empty, so that an iterator with something to do stands on its next byte. */
  predicate Valid(bvs: seq<BioVec>, it: Iter) {
    Inside(bvs, it) && NonEmpty(bvs) && (it.size > 0 ==> it.idx < |bvs| && it.done < bvs[it.idx].len)
  }

  /** Where `bytes` bytes after the start of vector idx lie. */
  function Skip(bvs: seq<BioVec>, idx: nat, bytes: nat): (nat, nat)
    decreases |bvs| - idx
  {
    if bytes == 0 || idx >= |bvs| || bytes < bvs[idx].len then (idx, bytes)
    else Skip(bvs, idx + 1, bytes - bvs[idx].len)
  }

  lemma {:induction false} SkipStaysInside(bvs: seq<BioVec>, idx: nat, bytes: nat)
    requires AllValid(bvs) && idx <= |bvs| && bytes <= Avail(bvs, idx)
    ensures
      var (i, d) := Skip(bvs, idx, bytes);
      && idx <= i <= |bvs| && d <= bytes
      && (bytes < Avail(bvs, idx) ==> i < |bvs|) && (d > 0 ==> i < |bvs| && d < bvs[i].len)
      && Avail(bvs, i) - d == Avail(bvs, idx) - bytes
    decreases |bvs| - idx
  {
    if bytes > 0 && bytes >= bvs[idx].len {
      SkipStaysInside(bvs, idx + 1, bytes - bvs[idx].len);
    }
  }

  lemma {:induction false} SkipAdds(bvs: seq<BioVec>, idx: nat, a: nat, b: nat)
    requires AllValid(bvs) && idx <= |bvs| && a + b <= Avail(bvs, idx)
    ensures
      var (i, d) := Skip(bvs, idx, a);
      Skip(bvs, i, d + b) == Skip(bvs, idx, a + b)
    decreases |bvs| - idx
  {
    if a > 0 && a >= bvs[idx].len {
      SkipAdds(bvs, idx + 1, a - bvs[idx].len, b);
    }
  }

  /** The iterator n bytes further on. */
  function Moved(bvs: seq<BioVec>, it: Iter, n: nat): Iter
    requires Inside(bvs, it) && n <= it.size
  {
    SkipStaysInside(bvs, it.idx, it.done + n);
    var (i, d) := Skip(bvs, it.idx, it.done + n);
    Iter(it.size - n, i, d)
  }

  lemma MovedValid(bvs: seq<BioVec>, it: Iter, n: nat)
    requires Inside(bvs, it) && n <= it.size
    ensures Inside(bvs, Moved(bvs, it, n))
    ensures Valid(bvs, it) ==> Valid(bvs, Moved(bvs, it, n))
  {
    SkipStaysInside(bvs, it.idx, it.done + n);
  }

  /** Advancing by a and then by b is advancing by a + b. */
  lemma MovedAdds(bvs: seq<BioVec>, it: Iter, a: nat, b: nat)
    requires Inside(bvs, it) && a + b <= it.size
    ensures Inside(bvs, Moved(bvs, it, a))
    ensures Moved(bvs, Moved(bvs, it, a), b) == Moved(bvs, it, a + b)
  {
    MovedValid(bvs, it, a);
    SkipAdds(bvs, it.idx, it.done + a, b);
  }

  /** bvec_iter_advance_single as a value, in 32-bit arithmetic. */
  function Single(bvs: seq<BioVec>, it: Iter, n: u32): Iter
    requires it.idx < |bvs|
  {
    if U32(it.done + n) == bvs[it.idx].len then Iter(U32(it.size - n), it.idx + 1, 0)
    else Iter(U32(it.size - n), it.idx, U32(it.done + n))
  }

  /** A single step is an advance exactly when it does not pass the end of the current vector. */
  lemma SingleExactly(bvs: seq<BioVec>, it: Iter, n: u32)
    requires Valid(bvs, it) && n <= it.size && it.size > 0
    ensures Single(bvs, it, n) == Moved(bvs, it, n) <==> it.done + n <= bvs[it.idx].len
  {
    assert Skip(bvs, it.idx + 1, 0) == (it.idx + 1, 0);
    if it.done + n > bvs[it.idx].len {
      SkipStaysInside(bvs, it.idx + 1, it.done + n - bvs[it.idx].len);
    }
  }

  lemma SingleIsMoved(bvs: seq<BioVec>, it: Iter, n: u32)
    requires Inside(bvs, it) && n <= it.size && it.idx < |bvs| && it.done + n <= bvs[it.idx].len
    requires bvs[it.idx].len > 0
    ensures Single(bvs, it, n) == Moved(bvs, it, n)
  {
    assert Skip(bvs, it.idx + 1, 0) == (it.idx + 1, 0);
  }

  /** n steps of one byte each. */
  function ByteSteps(bvs: seq<BioVec>, it: Iter, n: nat): Iter
    requires Valid(bvs, it) && n <= it.size
    decreases n
  {
    if n == 0 then it
    else
      SingleIsMoved(bvs, it, 1);
      MovedValid(bvs, it, 1);
      ByteSteps(bvs, Single(bvs, it, 1), n - 1)
  }

  /** Advancing by n is n steps of one byte. */
  lemma {:induction false} StepsAreMoved(bvs: seq<BioVec>, it: Iter, n: nat)
    requires Valid(bvs, it) && n <= it.size
    ensures ByteSteps(bvs, it, n) == Moved(bvs, it, n)
    decreases n
  {
    if n > 0 {
      SingleIsMoved(bvs, it, 1);
      MovedAdds(bvs, it, 1, n - 1);
      StepsAreMoved(bvs, Moved(bvs, it, 1), n - 1);
    }
  }

  // ---------- the bytes an iterator stands for

  /** The addresses of the bytes still to come, one by one.  Empty vectors have none. */
  function Bytes(bvs: seq<BioVec>, it: Iter): (bs: seq<nat>)
    requires Inside(bvs, it)
    ensures |bs| == it.size
    decreases it.size, |bvs| - it.idx
  {
    if it.size == 0 then []
    else if bvs[it.idx].len == 0 then Bytes(bvs, Iter(it.size, it.idx + 1, 0))
    else
      MovedValid(bvs, it, 1);
      [bvs[it.idx].Address(it.done)] + Bytes(bvs, Moved(bvs, it, 1))
  }

  /** Advancing drops bytes at the front and nothing else. */
  lemma {:induction false} MovedDrops(bvs: seq<BioVec>, it: Iter, n: nat)
    requires Inside(bvs, it) && n <= it.size
    ensures Inside(bvs, Moved(bvs, it, n))
    ensures Bytes(bvs, Moved(bvs, it, n)) == Bytes(bvs, it)[n..]
    decreases n, |bvs| - it.idx
  {
    MovedValid(bvs, it, n);
    if n == 0 {
      assert Moved(bvs, it, 0) == it;
    } else if bvs[it.idx].len == 0 {
      var next := Iter(it.size, it.idx + 1, 0);
      assert Moved(bvs, it, n) == Moved(bvs, next, n);
      MovedDrops(bvs, next, n);
    } else {
      MovedAdds(bvs, it, 1, n - 1);
      MovedDrops(bvs, Moved(bvs, it, 1), n - 1);
    }
  }

  // ---------- pieces within single pages

  /** mp_bvec_iter_len */
  function MpLen(bvs: seq<BioVec>, it: Iter): nat
    requires Inside(bvs, it) && it.size > 0
  {
    Min(it.size, bvs[it.idx].len - it.done)
  }

  /** mp_bvec_iter_offset */
  function MpOffset(bvs: seq<BioVec>, it: Iter): nat
    requires Inside(bvs, it) && it.size > 0
  {
    bvs[it.idx].offset + it.done
  }

  /** bvec_iter_bvec: the next piece, cut at the end of its page.  That of an empty vector is empty. */
  function Piece(bvs: seq<BioVec>, it: Iter): BioVec
    requires Inside(bvs, it) && it.size > 0
  {
    var offset := MpOffset(bvs, it) % PAGE_SIZE;
    BioVec(bvs[it.idx].page + MpOffset(bvs, it) / PAGE_SIZE, Min(MpLen(bvs, it), PAGE_SIZE - offset), offset)
  }

  predicate WithinPage(p: BioVec) {
    p.offset + p.len <= PAGE_SIZE
  }

  function PieceBytes(p: BioVec): seq<nat> {
    seq(p.len, k requires 0 <= k < p.len => p.Address(k))
  }

  /** A piece lies in one page and in one vector, and it ends its page, its vector or the request. */
  lemma PieceFits(bvs: seq<BioVec>, it: Iter)
    requires Inside(bvs, it) && it.size > 0
    ensures
      var p := Piece(bvs, it);
      && WithinPage(p) && p.len <= it.size && it.done + p.len <= bvs[it.idx].len
      && (p.offset + p.len == PAGE_SIZE || it.done + p.len == bvs[it.idx].len || p.len == it.size)
      && (p.len == 0 <==> bvs[it.idx].len == 0)
      && forall k :: 0 <= k < p.len ==> p.Address(k) == bvs[it.idx].Address(it.done + k)
  {
    var m := MpOffset(bvs, it);
    assert m == m / PAGE_SIZE * PAGE_SIZE + m % PAGE_SIZE;
  }

  /** Within one vector the bytes to come are consecutive. */
  lemma {:induction false} BytesOfVector(bvs: seq<BioVec>, it: Iter, n: nat)
    requires Inside(bvs, it) && n <= it.size && it.idx < |bvs| && it.done + n <= bvs[it.idx].len
    ensures forall k :: 0 <= k < n ==> Bytes(bvs, it)[k] == bvs[it.idx].Address(it.done + k)
    decreases n
  {
    if n > 1 {
      SingleIsMoved(bvs, it, 1);
      MovedValid(bvs, it, 1);
      BytesOfVector(bvs, Moved(bvs, it, 1), n - 1);
      forall k | 0 < k < n ensures Bytes(bvs, it)[k] == bvs[it.idx].Address(it.done + k) {
        assert Bytes(bvs, it)[k] == Bytes(bvs, Moved(bvs, it, 1))[k - 1];
      }
    }
  }

  /** The iterator after its next piece. */
  function Next(bvs: seq<BioVec>, it: Iter): (it': Iter)
    requires Inside(bvs, it) && it.size > 0
    ensures Inside(bvs, it') && it'.size == it.size - Piece(bvs, it).len
    ensures Piece(bvs, it).len == 0 ==> it'.idx == it.idx + 1
  {
    PieceFits(bvs, it);
    var n := Piece(bvs, it).len;
    if n > 0 then SingleIsMoved(bvs, it, n); MovedValid(bvs, it, n); Single(bvs, it, n)
    else Single(bvs, it, n)
  }

  /** The pieces that for_each_bvec goes through. */
  function Pieces(bvs: seq<BioVec>, it: Iter): seq<BioVec>
    requires Inside(bvs, it)
    decreases it.size, |bvs| - it.idx
  {
    if it.size == 0 then [] else [Piece(bvs, it)] + Pieces(bvs, Next(bvs, it))
  }

  function Concat(ps: seq<BioVec>): seq<nat> {
    if ps == [] then [] else PieceBytes(ps[0]) + Concat(ps[1..])
  }

  lemma PieceIsFirst(bvs: seq<BioVec>, it: Iter)
    requires Inside(bvs, it) && it.size > 0
    ensures Piece(bvs, it).len <= it.size && PieceBytes(Piece(bvs, it)) == Bytes(bvs, it)[..Piece(bvs, it).len]
  {
    PieceFits(bvs, it);
    BytesOfVector(bvs, it, Piece(bvs, it).len);
  }

  /** What is still to come after a piece are the bytes behind it. */
  lemma NextDrops(bvs: seq<BioVec>, it: Iter)
    requires Inside(bvs, it) && it.size > 0
    ensures Piece(bvs, it).len <= it.size && Bytes(bvs, Next(bvs, it)) == Bytes(bvs, it)[Piece(bvs, it).len..]
  {
    PieceFits(bvs, it);
    var n := Piece(bvs, it).len;
    if n > 0 {
      SingleIsMoved(bvs, it, n);
      MovedDrops(bvs, it, n);
    }
  }

  lemma ConcatStep(ps: seq<BioVec>, p: BioVec, rest: seq<BioVec>, bs: seq<nat>)
    requires ps == [p] + rest && |bs| >= p.len && PieceBytes(p) == bs[..p.len] && Concat(rest) == bs[p.len..]
    ensures Concat(ps) == bs
  {
    assert ps[1..] == rest;
    assert bs == bs[..p.len] + bs[p.len..];
  }

  /** Each piece, laid from the iterator's place on, ends its page, its vector or the request. */
  predicate EachEnds(bvs: seq<BioVec>, it: Iter, ps: seq<BioVec>)
    decreases |ps|
  {
    ps != [] ==>
      var p, left := ps[0], it.size - ps[0].len;
      && it.idx < |bvs| && left >= 0
      && (p.offset + p.len == PAGE_SIZE || it.done + p.len == bvs[it.idx].len || left == 0)
      && if it.done + p.len < bvs[it.idx].len then EachEnds(bvs, Iter(left, it.idx, it.done + p.len), ps[1..])
         else it.done + p.len == bvs[it.idx].len && EachEnds(bvs, Iter(left, it.idx + 1, 0), ps[1..])
  }

  /** The iterator stands behind the piece. */
  lemma NextIsBehind(bvs: seq<BioVec>, it: Iter)
    requires Inside(bvs, it) && it.size > 0
    ensures
      var n := Piece(bvs, it).len;
      && n <= it.size && it.done + n <= bvs[it.idx].len
      && Next(bvs, it)
         == if it.done + n == bvs[it.idx].len then Iter(it.size - n, it.idx + 1, 0)
            else Iter(it.size - n, it.idx, it.done + n)
  {
    PieceFits(bvs, it);
  }

  lemma EndsStep(bvs: seq<BioVec>, it: Iter, p: BioVec, next: Iter, rest: seq<BioVec>, ps: seq<BioVec>)
    requires ps == [p] + rest && it.idx < |bvs| && p.len <= it.size && it.done + p.len <= bvs[it.idx].len
    requires p.offset + p.len == PAGE_SIZE || it.done + p.len == bvs[it.idx].len || p.len == it.size
    requires
      next
      == if it.done + p.len == bvs[it.idx].len then Iter(it.size - p.len, it.idx + 1, 0)
         else Iter(it.size - p.len, it.idx, it.done + p.len)
    requires EachEnds(bvs, next, rest)
    ensures EachEnds(bvs, it, ps)
  {
    assert ps[1..] == rest;
  }

  /** Every piece stays in one page, none is empty unless a vector is, each one ends its page, its
      vector or the request, and the pieces together are exactly the bytes to come. */
  lemma {:induction false} PiecesCoverBytes(bvs: seq<BioVec>, it: Iter)
    requires Inside(bvs, it)
    ensures forall i :: 0 <= i < |Pieces(bvs, it)| ==> WithinPage(Pieces(bvs, it)[i])
    ensures NonEmpty(bvs) ==> NonEmpty(Pieces(bvs, it))
    ensures Concat(Pieces(bvs, it)) == Bytes(bvs, it)
    ensures EachEnds(bvs, it, Pieces(bvs, it))
    decreases it.size, |bvs| - it.idx
  {
    if it.size > 0 {
      var p, rest := Piece(bvs, it), Next(bvs, it);
      PieceFits(bvs, it);
      PieceIsFirst(bvs, it);
      NextDrops(bvs, it);
      PiecesCoverBytes(bvs, rest);
      NextIsBehind(bvs, it);
      EndsStep(bvs, it, p, rest, Pieces(bvs, rest), Pieces(bvs, it));
      ConcatStep(Pieces(bvs, it), p, Pieces(bvs, rest), Bytes(bvs, it));
    }
  }

  // ---------- the operations

  /** struct bvec_iter */
  class BvecIter {
    var size: u32
    var idx: nat
    var done: u32

    function View(): Iter
      reads this
    {
      Iter(size, idx, done)
    }

    constructor (it: Iter)
      ensures View() == it
    {
      size, idx, done := it.size, it.idx, it.done;
    }

    /** bvec_iter_advance; asking for more than is left empties the iterator. */
    method Advance(bvs: seq<BioVec>, bytes: u32) returns (ok: bool)
      requires Inside(bvs, View())
      modifies this
      ensures ok <==> bytes <= old(size)
      ensures ok ==> View() == Moved(bvs, old(View()), bytes)
      ensures !ok ==> View() == old(View()).(size := 0)
    {
      if bytes > size {
        size := 0;
        return false;
      }
      ghost var it := View();
      var i := idx;
      size := size - bytes;
      var left: nat := U32(bytes + done);
      while left != 0 && left >= bvs[i].len
        invariant i <= |bvs| && left <= Avail(bvs, i)
        invariant Skip(bvs, i, left) == Skip(bvs, it.idx, it.done + bytes)
        decreases |bvs| - i
      {
        left := left - bvs[i].len;
        i := i + 1;
      }
      idx, done := i, left;
      ok := true;
    }

    /** bvec_iter_advance_single, which does not look beyond the current vector. */
    method AdvanceSingle(bvs: seq<BioVec>, bytes: u32)
      requires idx < |bvs|
      modifies this
      ensures View() == Single(bvs, old(View()), bytes)
    {
      var d := U32(done + bytes);
      if d == bvs[idx].len {
        d := 0;
        idx := idx + 1;
      }
      done := d;
      size := U32(size - bytes);
    }
  }

  /** for_each_bvec, collecting its pieces: they are the bytes to come, each in one page, and each
      ends its page, its vector or the request. */
  method ForEach(bvs: seq<BioVec>, start: Iter) returns (ps: seq<BioVec>)
    requires Inside(bvs, start)
    ensures ps == Pieces(bvs, start) && Concat(ps) == Bytes(bvs, start)
    ensures EachEnds(bvs, start, ps) && forall i :: 0 <= i < |ps| ==> WithinPage(ps[i])
  {
    PiecesCoverBytes(bvs, start);
    var iter := new BvecIter(start);
    ps := [];
    ghost var more := Pieces(bvs, start);
    while iter.size > 0
      invariant Inside(bvs, iter.View())
      invariant more == Pieces(bvs, iter.View()) && ps + more == Pieces(bvs, start)
      decreases iter.size, |bvs| - iter.idx
    {
      ghost var it := iter.View();
      var bvl := Piece(bvs, iter.View());
      PieceFits(bvs, it);
      iter.AdvanceSingle(bvs, bvl.len);
      assert iter.View() == Next(bvs, it);
      OneMore(ps, bvl, Pieces(bvs, iter.View()));
      ps, more := ps + [bvl], Pieces(bvs, iter.View());
    }
  }

  // ---------- the walk over whole vectors

  /** Everything from here to the end of the vectors is still to come. */
  predicate ToEnd(bvs: seq<BioVec>, it: Iter) {
    Inside(bvs, it) && it.size == Avail(bvs, it.idx) - it.done
  }

  /** The piece before position `done` of a vector, if there is one, ended with its page. */
  predicate AtBoundary(bv: BioVec, done: nat, prev: BioVec) {
    done > 0 ==> prev.page + 1 == bv.page + (bv.offset + done) / PAGE_SIZE && (bv.offset + done) % PAGE_SIZE == 0
  }

  /** The piece that a walk over whole vectors meets. */
  function WalkPiece(bv: BioVec, done: nat, prev: BioVec): BioVec
    requires bv.Valid() && done <= bv.len
  {
    var offset := if done > 0 then 0 else bv.offset % PAGE_SIZE;
    BioVec(if done > 0 then prev.page + 1 else bv.page + bv.offset / PAGE_SIZE,
           Min(PAGE_SIZE - offset, bv.len - done), offset)
  }

  /** It is the piece of the bounded iterator. */
  lemma WholePiece(bvs: seq<BioVec>, it: Iter, prev: BioVec)
    requires ToEnd(bvs, it) && it.size > 0 && AtBoundary(bvs[it.idx], it.done, prev)
    ensures Piece(bvs, it) == WalkPiece(bvs[it.idx], it.done, prev)
  {
  }

  /** Where the bounded iterator stands after it. */
  lemma ToEndNext(bvs: seq<BioVec>, it: Iter, p: BioVec)
    requires ToEnd(bvs, it) && it.size > 0 && p == Piece(bvs, it)
    ensures p.len <= it.size && it.done + p.len <= bvs[it.idx].len && ToEnd(bvs, Next(bvs, it))
    ensures
      Next(bvs, it)
      == if it.done + p.len == bvs[it.idx].len then Iter(it.size - p.len, it.idx + 1, 0)
         else Iter(it.size - p.len, it.idx, it.done + p.len)
    ensures it.done + p.len < bvs[it.idx].len ==> AtBoundary(bvs[it.idx], it.done + p.len, p)
  {
    PieceFits(bvs, it);
    if it.done + p.len < bvs[it.idx].len {
      EndsPage(bvs, it);
    }
  }

  /** A piece that does not end its vector ends its page. */
  lemma EndsPage(bvs: seq<BioVec>, it: Iter)
    requires ToEnd(bvs, it) && it.size > 0
    requires it.done + Piece(bvs, it).len < bvs[it.idx].len
    ensures AtBoundary(bvs[it.idx], it.done + Piece(bvs, it).len, Piece(bvs, it))
  {
    assert Avail(bvs, it.idx) == bvs[it.idx].len + Avail(bvs, it.idx + 1);
    var m := MpOffset(bvs, it);
    assert Piece(bvs, it).len == PAGE_SIZE - m % PAGE_SIZE;
    assert m + Piece(bvs, it).len == (m / PAGE_SIZE + 1) * PAGE_SIZE;
  }

  /** struct bvec_iter_all */
  class BvecIterAll {
    var bv: BioVec
    var idx: nat
    var done: u32

    /** bvec_init_iter_all; the source leaves bv as it finds it. */
    constructor (bv: BioVec)
      ensures this.bv == bv && idx == 0 && done == 0
    {
      this.bv, idx, done := bv, 0, 0;
    }

    /** bvec_advance */
    method Advance(bvec: BioVec)
      requires bvec.Valid() && done <= bvec.len && AtBoundary(bvec, done, bv)
      modifies this
      ensures bv == WalkPiece(bvec, old(done), old(bv))
      ensures
        if old(done) + bv.len == bvec.len then idx == old(idx) + 1 && done == 0
        else idx == old(idx) && done == old(done) + bv.len
    {
      var page, offset;
      if done > 0 {
        page, offset := bv.page + 1, 0;
      } else {
        page, offset := bvec.page + bvec.offset / PAGE_SIZE, bvec.offset % PAGE_SIZE;
      }
      bv := BioVec(page, Min(PAGE_SIZE - offset, bvec.len - done), offset);
      done := done + bv.len;
      if done == bvec.len {
        idx := idx + 1;
        done := 0;
      }
    }
  }

  /** A walk that covers everything, together with the bounded iterator, which stops before empty
      vectors at the end. */
  ghost predicate Covering(bvs: seq<BioVec>, iter: BvecIterAll, it: Iter)
    reads iter
  {
    && ToEnd(bvs, it) && iter.idx == it.idx && iter.done == it.done
    && (it.idx < |bvs| ==> AtBoundary(bvs[it.idx], iter.done, iter.bv))
  }

  /** Where the walk stands after one call of bvec_advance. */
  function WalkNext(bvs: seq<BioVec>, it: Iter): (it': Iter)
    requires Inside(bvs, it) && it.idx < |bvs|
    ensures Inside(bvs, it')
    ensures it'.size < it.size || (it'.size == it.size && it'.idx > it.idx)
  {
    if it.size > 0 then Next(bvs, it) else Iter(0, it.idx + 1, 0)
  }

  /** The piece that bvec_advance meets there: the next one, or that of an empty vector at the end. */
  function WalkHead(bvs: seq<BioVec>, it: Iter): BioVec
    requires Inside(bvs, it) && it.idx < |bvs|
  {
    if it.size > 0 then Piece(bvs, it)
    else BioVec(bvs[it.idx].page + bvs[it.idx].offset / PAGE_SIZE, 0, bvs[it.idx].offset % PAGE_SIZE)
  }

  /** The pieces of the whole walk. */
  function WalkPieces(bvs: seq<BioVec>, it: Iter): seq<BioVec>
    requires Inside(bvs, it)
    decreases it.size, |bvs| - it.idx
  {
    if it.idx >= |bvs| then [] else [WalkHead(bvs, it)] + WalkPieces(bvs, WalkNext(bvs, it))
  }

  /** How many vectors behind the last byte are empty, from vector i on. */
  function EmptyAtEnd(bvs: seq<BioVec>, i: nat): nat
    decreases |bvs| - i
  {
    if i >= |bvs| then 0 else if Avail(bvs, i) == 0 then |bvs| - i else EmptyAtEnd(bvs, i + 1)
  }

  lemma {:induction false} NoneAtEnd(bvs: seq<BioVec>, i: nat)
    requires NonEmpty(bvs)
    ensures EmptyAtEnd(bvs, i) == 0
    decreases |bvs| - i
  {
    if i < |bvs| {
      NoneAtEnd(bvs, i + 1);
    }
  }

  lemma {:induction false} NothingLeft(bvs: seq<BioVec>, it: Iter)
    requires ToEnd(bvs, it) && it.size == 0
    ensures |WalkPieces(bvs, it)| == EmptyAtEnd(bvs, it.idx) == |bvs| - it.idx
    ensures forall i :: 0 <= i < |WalkPieces(bvs, it)| ==> WalkPieces(bvs, it)[i].len == 0
    decreases |bvs| - it.idx
  {
    if it.idx < |bvs| {
      NothingLeft(bvs, Iter(0, it.idx + 1, 0));
    }
  }

  /** The walk meets the pieces of for_each_bvec, and then one empty piece for each empty vector at
      the end. */
  lemma {:induction false} WalkIsPieces(bvs: seq<BioVec>, it: Iter) returns (empty: seq<BioVec>)
    requires ToEnd(bvs, it)
    ensures WalkPieces(bvs, it) == Pieces(bvs, it) + empty
    ensures |empty| == EmptyAtEnd(bvs, it.idx) && forall i :: 0 <= i < |empty| ==> empty[i].len == 0
    decreases it.size, |bvs| - it.idx
  {
    if it.size == 0 {
      NothingLeft(bvs, it);
      empty := WalkPieces(bvs, it);
    } else {
      var p, next := Piece(bvs, it), Next(bvs, it);
      ToEndNext(bvs, it, p);
      empty := WalkIsPieces(bvs, next);
      PiecesFirst(bvs, it, p, next);
      WalkFirst(bvs, it, p, next);
      WalkUnfolds(WalkPieces(bvs, it), Pieces(bvs, it), p, Pieces(bvs, next), empty);
    }
  }

  lemma PiecesFirst(bvs: seq<BioVec>, it: Iter, p: BioVec, next: Iter)
    requires Inside(bvs, it) && it.size > 0 && p == Piece(bvs, it) && next == Next(bvs, it)
    ensures Pieces(bvs, it) == [p] + Pieces(bvs, next)
  {
  }

  lemma WalkFirst(bvs: seq<BioVec>, it: Iter, p: BioVec, next: Iter)
    requires Inside(bvs, it) && it.size > 0 && p == Piece(bvs, it) && next == Next(bvs, it)
    ensures WalkPieces(bvs, it) == [p] + WalkPieces(bvs, next)
  {
  }

  lemma WalkUnfolds(all: seq<BioVec>, pieces: seq<BioVec>, p: BioVec, ps: seq<BioVec>, empty: seq<BioVec>)
    requires all == [p] + (ps + empty) && pieces == [p] + ps
    ensures all == pieces + empty
  {
  }

  /** One call of bvec_advance meets the next piece, or passes an empty vector at the end. */
  method WalkStep(bvs: seq<BioVec>, iter: BvecIterAll, ghost it: Iter)
    requires Covering(bvs, iter, it) && iter.idx < |bvs|
    modifies iter
    ensures iter.bv == WalkHead(bvs, it)
    ensures Covering(bvs, iter, WalkNext(bvs, it))
  {
    assert Avail(bvs, it.idx) == bvs[it.idx].len + Avail(bvs, it.idx + 1);
    if it.size > 0 {
      WholePiece(bvs, it, iter.bv);
      ToEndNext(bvs, it, Piece(bvs, it));
    }
    iter.Advance(bvs[iter.idx]);
  }

  /** The walk over whole vectors: as long as a vector is left, bvec_advance is called on it. */
  method WalkAll(bvs: seq<BioVec>) returns (ps: seq<BioVec>, ghost empty: seq<BioVec>)
    requires AllValid(bvs) && Avail(bvs, 0) < TWO32
    ensures ps == Pieces(bvs, Iter(Avail(bvs, 0), 0, 0)) + empty
    ensures |empty| == EmptyAtEnd(bvs, 0) && forall i :: 0 <= i < |empty| ==> empty[i].len == 0
    ensures NonEmpty(bvs) ==> empty == []
  {
    if NonEmpty(bvs) {
      NoneAtEnd(bvs, 0);
    }
    ghost var it := Iter(Avail(bvs, 0), 0, 0);
    ghost var all := WalkPieces(bvs, it);
    ghost var more := all;
    empty := WalkIsPieces(bvs, it);
    var iter := new BvecIterAll(BioVec(0, 0, 0));
    ps := [];
    while iter.idx < |bvs|
      invariant Covering(bvs, iter, it)
      invariant more == WalkPieces(bvs, it) && ps + more == all
      decreases it.size, |bvs| - it.idx
    {
      WalkStep(bvs, iter, it);
      OneMore(ps, iter.bv, WalkPieces(bvs, WalkNext(bvs, it)));
      ps, it := ps + [iter.bv], WalkNext(bvs, it);
      more := WalkPieces(bvs, it);
    }
    assert more == [];
  }

  lemma OneMore(ps: seq<BioVec>, p: BioVec, more: seq<BioVec>)
    ensures ps + ([p] + more) == (ps + [p]) + more
  {
  }
}
