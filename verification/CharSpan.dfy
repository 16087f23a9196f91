/** Registration of a run of consecutive device numbers in fs/char_device.c, which is split at
    the boundaries between majors and rolled back when one part fails. */
module CharSpan {
  import opened Machine
  import opened CharTable

  function MAJOR(dev: u32): u32 {
    dev / MINORS
  }

  function MINOR(dev: u32): u32 {
    dev % MINORS
  }

  /** The two halves are combined bit by bit, which is a sum as long as the minor has no more than
      its own 20 bits. */
  function MKDEV(major: nat, minor: u32): u32 {
    if minor < MINORS then U32(major * MINORS + minor)
    else (((major % 0x1000) as bv12 | (minor / MINORS) as bv12) as int) * MINORS + minor % MINORS
  }

  /** The number made of a major and a minor stands for them exactly when the minor is in range. */
  lemma DevExactly(major: nat, minor: u32)
    requires major < 0x1000
    ensures MAJOR(MKDEV(major, minor)) == major && MINOR(MKDEV(major, minor)) == minor <==> minor < MINORS
  {
  }

  /** A minor out of range mixes with the bits of the major. */
  lemma DevMixes()
    ensures MKDEV(5, 0x30_0000) == 0x70_0000 == MKDEV(7, 0)
  {
    var a: bv12, b: bv12 := 5, 3;
    assert a | b == 7;
  }

  /** The first device number of the next major, in 32 bits. */
  function NextMajor(n: u32): u32 {
    MKDEV(MAJOR(n) + 1, 0)
  }

  /** Where the part that begins at n ends. */
  function NextPart(n: u32, to: u32): u32 {
    if NextMajor(n) > to then to else NextMajor(n)
  }

  lemma NextMajorGrows(n: u32)
    requires MAJOR(n) < 0xFFF
    ensures n < NextMajor(n) == (MAJOR(n) + 1) * MINORS
    ensures MAJOR(NextMajor(n)) == MAJOR(n) + 1
  {
  }

  /** One part of the loop in register_chrdev_region. */
  function RegisterPart(t: Table, n: u32, to: u32, memory: bool): (Table, Outcome)
    requires |t| == HASH_SIZE
  {
    Register(t, MAJOR(n), MINOR(n), U32(NextPart(n, to) - n), memory)
  }

  lemma RegisterKeepsSize(t: Table, major: u32, baseminor: u32, minorct: u32, memory: bool)
    requires |t| == HASH_SIZE
    ensures |Register(t, major, baseminor, minorct, memory).0| == HASH_SIZE
    ensures Register(t, major, baseminor, minorct, memory).1.Registered? ==> major < MAJOR_MAX
  {
  }

  /** The loop of register_chrdev_region from n on: the table, the start of the part that
      failed or `to`, and the error.  `memory(m)` says whether the allocation for the part of
      major m succeeds. */
  function RegisterParts(t: Table, n: u32, to: u32, memory: nat -> bool): (r: (Table, u32, Option<Errno>))
    requires |t| == HASH_SIZE
    ensures |r.0| == HASH_SIZE
    decreases if n < to then to - n else 0
  {
    if n >= to then (t, n, None)
    else
      var (t', o) := RegisterPart(t, n, to, memory(MAJOR(n)));
      match o
      case Failed(e) => (t, n, Some(e))
      case Registered(_) =>
        RegisterKeepsSize(t, MAJOR(n), MINOR(n), U32(NextPart(n, to) - n), memory(MAJOR(n)));
        NextMajorGrows(n);
        RegisterParts(t', NextPart(n, to), to, memory)
  }

  /** One round of the loop. */
  lemma PartsStep(t: Table, n: u32, to: u32, memory: nat -> bool)
    requires |t| == HASH_SIZE && n < to
    ensures
      var (t', o) := RegisterPart(t, n, to, memory(MAJOR(n)));
      && (o.Failed? ==> RegisterParts(t, n, to, memory) == (t, n, Some(o.error)) && t' == t)
      && (o.Registered? ==>
            && |t'| == HASH_SIZE && n < NextPart(n, to)
            && RegisterParts(t, n, to, memory) == RegisterParts(t', NextPart(n, to), to, memory))
  {
    RegisterKeepsSize(t, MAJOR(n), MINOR(n), U32(NextPart(n, to) - n), memory(MAJOR(n)));
    if MAJOR(n) < MAJOR_MAX {
      NextMajorGrows(n);
    }
  }

  /** The rollback loop: each part from n up to `to` is taken out again. */
  function Rollback(t: Table, n: u32, to: u32): (t': Table)
    requires |t| == HASH_SIZE
    requires n < to ==> to <= MAJOR_MAX * MINORS
    ensures |t'| == HASH_SIZE
    decreases if n < to then to - n else 0
  {
    if n >= to then t
    else
      NextMajorGrows(n);
      Rollback(Unregister(t, Region(MAJOR(n), MINOR(n), U32(NextMajor(n) - n))), NextMajor(n), to)
  }

  lemma RollbackStep(t: Table, n: u32, to: u32)
    requires |t| == HASH_SIZE && n < to <= MAJOR_MAX * MINORS
    ensures
      var part := Region(MAJOR(n), MINOR(n), U32(NextMajor(n) - n));
      n < NextMajor(n) && Rollback(t, n, to) == Rollback(Unregister(t, part), NextMajor(n), to)
  {
    NextMajorGrows(n);
  }

  lemma {:induction false} FailurePoint(t: Table, n: u32, to: u32, memory: nat -> bool)
    requires |t| == HASH_SIZE
    ensures
      var r := RegisterParts(t, n, to, memory);
      r.2.Some? ==> n <= r.1 < to && (n < r.1 ==> r.1 <= MAJOR_MAX * MINORS && r.1 % MINORS == 0)
    decreases if n < to then to - n else 0
  {
    if n < to {
      var (t', o) := RegisterPart(t, n, to, memory(MAJOR(n)));
      if o.Registered? {
        RegisterKeepsSize(t, MAJOR(n), MINOR(n), U32(NextPart(n, to) - n), memory(MAJOR(n)));
        NextMajorGrows(n);
        FailurePoint(t', NextPart(n, to), to, memory);
      }
    }
  }

  /** register_chrdev_region */
  function RegisterSpan(t: Table, from: u32, count: u32, memory: nat -> bool): (r: (Table, Option<Errno>))
    requires |t| == HASH_SIZE
    ensures |r.0| == HASH_SIZE
  {
    var to := U32(from + count);
    var (t', n, e) := RegisterParts(t, from, to, memory);
    FailurePoint(t, from, to, memory);
    if e.None? then (t', None) else (Rollback(t', from, n), e)
  }

  // ---------- the rollback

  lemma UnregistersCommute(t: Table, a: Region, b: Region)
    requires |t| == HASH_SIZE
    ensures Unregister(Unregister(t, a), b) == Unregister(Unregister(t, b), a)
  {
    RemovesCommute(t[a.major % HASH_SIZE], a, b);
  }

  /** Taking out one more entry may be done before or after a rollback. */
  lemma {:induction false} RollbackCommutes(t: Table, r: Region, n: u32, to: u32)
    requires |t| == HASH_SIZE
    requires n < to ==> to <= MAJOR_MAX * MINORS
    ensures Rollback(Unregister(t, r), n, to) == Unregister(Rollback(t, n, to), r)
    decreases if n < to then to - n else 0
  {
    if n < to {
      NextMajorGrows(n);
      var part := Region(MAJOR(n), MINOR(n), U32(NextMajor(n) - n));
      UnregistersCommute(t, r, part);
      RollbackCommutes(Unregister(t, part), r, NextMajor(n), to);
    }
  }

  /** After a failure of parts whose majors were given, the rollback restores every chain, with
      its contents and order. */
  lemma {:induction false} RollbackRestores(t: Table, n: u32, to: u32, memory: nat -> bool)
    requires Good(t) && MAJOR(n) >= 1
    requires RegisterParts(t, n, to, memory).2.Some?
    ensures
      var (t', stop, _) := RegisterParts(t, n, to, memory);
      (n < stop ==> stop <= MAJOR_MAX * MINORS) && Rollback(t', n, stop) == t
    decreases if n < to then to - n else 0
  {
    FailurePoint(t, n, to, memory);
    var (t1, o) := RegisterPart(t, n, to, memory(MAJOR(n)));
    if o.Registered? {
      RegisterEffect(t, MAJOR(n), MINOR(n), U32(NextPart(n, to) - n), memory(MAJOR(n)));
      NextMajorGrows(n);
      var next := NextPart(n, to);
      var (t', stop, e) := RegisterParts(t1, next, to, memory);
      FailurePoint(t1, next, to, memory);
      RollbackRestores(t1, next, to, memory);
      RollbackCommutes(t', o.region, next, stop);
    }
  }

  // ---------- what a successful call adds

  predicate OwnedDev(t: Table, dev: u32)
    requires |t| == HASH_SIZE
  {
    Owned(t, MAJOR(dev), MINOR(dev))
  }

  /** The numbers of one part are the part of the span within one major. */
  lemma PartOwns(n: u32, to: u32, dev: u32)
    requires n < to && MAJOR(n) < MAJOR_MAX
    ensures
      Region(MAJOR(n), MINOR(n), U32(NextPart(n, to) - n)).Owns(MAJOR(dev), MINOR(dev))
      <==> n <= dev < NextPart(n, to)
  {
    NextMajorGrows(n);
    assert dev == MAJOR(dev) * MINORS + MINOR(dev) && n == MAJOR(n) * MINORS + MINOR(n);
  }

  /** The parts that were registered own exactly their numbers, besides what was owned before. */
  lemma {:induction false} PartsOwn(t: Table, n: u32, to: u32, memory: nat -> bool)
    requires Good(t) && MAJOR(n) >= 1
    requires RegisterParts(t, n, to, memory).2.None?
    ensures
      var t' := RegisterParts(t, n, to, memory).0;
      Good(t') && forall dev: u32 :: OwnedDev(t', dev) <==> OwnedDev(t, dev) || n <= dev < to
    decreases if n < to then to - n else 0
  {
    if n < to {
      var (t1, o) := RegisterPart(t, n, to, memory(MAJOR(n)));
      RegisterEffect(t, MAJOR(n), MINOR(n), U32(NextPart(n, to) - n), memory(MAJOR(n)));
      NextMajorGrows(n);
      var next := NextPart(n, to);
      if next < to {
        PartsOwn(t1, next, to, memory);
      }
      forall dev: u32
        ensures OwnedDev(t1, dev) <==> OwnedDev(t, dev) || n <= dev < next
      {
        PartOwns(n, to, dev);
        RegisterOwns(t, o.region, MAJOR(dev), MINOR(dev));
      }
    }
  }

  lemma SpanIsParts(t: Table, from: u32, count: u32, to: u32, memory: nat -> bool)
    requires |t| == HASH_SIZE && to == U32(from + count)
    ensures
      var (t', n, e) := RegisterParts(t, from, to, memory);
      && (e.None? ==> RegisterSpan(t, from, count, memory) == (t', None))
      && (e.Some? ==>
            && (from < n ==> n <= MAJOR_MAX * MINORS)
            && RegisterSpan(t, from, count, memory) == (Rollback(t', from, n), e))
  {
    FailurePoint(t, from, to, memory);
  }

  // ---------- when a span is registered

  /** The numbers of the span from `from` up to `to` that lie in major m. */
  function SpanPart(from: u32, to: u32, m: nat): Region
    requires from < to && MAJOR(from) <= m <= MAJOR(to - 1)
  {
    var first := if m == MAJOR(from) then MINOR(from) else 0;
    var last := if m == MAJOR(to - 1) then MINOR(to - 1) else MINORS - 1;
    Region(m, first, last + 1 - first)
  }

  predicate Collides(t: Table, r: Region) {
    exists i, j :: 0 <= i < |t| && 0 <= j < |t[i]| && t[i][j].Meets(r)
  }

  /** Why the part of a span in major m cannot be registered. */
  function Obstacle(t: Table, from: u32, to: u32, m: nat, memory: nat -> bool): Option<Errno>
    requires from < to && MAJOR(from) <= m <= MAJOR(to - 1)
  {
    if m >= 512 then Some(EINVAL)
    else if !memory(m) then Some(ENOMEM)
    else if Collides(t, SpanPart(from, to, m)) then Some(EBUSY)
    else None
  }

  /** The first obstacle is the one in major `stop`, or there is none before the end of the span. */
  ghost predicate FirstObstacle(t: Table, from: u32, to: u32, memory: nat -> bool, stop: nat, e: Option<Errno>)
    requires from < to
  {
    && MAJOR(from) <= stop <= MAJOR(to - 1) + 1
    && (forall m :: MAJOR(from) <= m < stop ==> Obstacle(t, from, to, m, memory).None?)
    && (e.Some? <==> stop <= MAJOR(to - 1))
    && (e.Some? ==> e == Obstacle(t, from, to, stop, memory))
  }

  lemma CollidesInChain(t: Table, r: Region)
    requires Good(t)
    ensures
      var chain := t[r.major % HASH_SIZE];
      Collides(t, r) <==> exists j :: 0 <= j < |chain| && chain[j].Meets(r)
  {
    forall i, j | 0 <= i < |t| && 0 <= j < |t[i]| && t[i][j].Meets(r) ensures i == r.major % HASH_SIZE {
      assert GoodChain(t[i], i);
    }
  }

  /** A region of another major is no obstacle. */
  lemma InsertCollides(t: Table, r: Region, x: Region, t': Table)
    requires |t| == HASH_SIZE && r.major != x.major
    requires var i := r.major % HASH_SIZE; t' == t[i := Insert(t[i], r)]
    ensures Collides(t', x) <==> Collides(t, x)
  {
    var b := r.major % HASH_SIZE;
    var p := Slot(t[b], r);
    if i, j :| 0 <= i < |t| && 0 <= j < |t[i]| && t[i][j].Meets(x) {
      assert t'[i][if i == b && j >= p then j + 1 else j] == t[i][j];
    }
    if i, j :| 0 <= i < |t'| && 0 <= j < |t'[i]| && t'[i][j].Meets(x) {
      assert t'[i][j] == if i != b || j < p then t[i][j] else if j == p then r else t[i][j - 1];
    }
  }

  /** The loop asks for the part of the span in the major of n. */
  lemma FirstPartIs(n: u32, to: u32)
    requires n < to
    ensures MAJOR(n) <= MAJOR(to - 1)
    ensures
      MAJOR(n) < 0xFFF ==>
        && SpanPart(n, to, MAJOR(n)) == Region(MAJOR(n), MINOR(n), U32(NextPart(n, to) - n))
        && MINOR(n) + U32(NextPart(n, to) - n) <= MINORS
  {
    if MAJOR(n) < 0xFFF {
      NextMajorGrows(n);
    }
  }

  lemma LaterParts(n: u32, to: u32, m: nat)
    requires n < to && MAJOR(n) < m <= MAJOR(to - 1)
    ensures NextPart(n, to) < to && MAJOR(NextPart(n, to)) == MAJOR(n) + 1
    ensures SpanPart(NextPart(n, to), to, m) == SpanPart(n, to, m)
  {
    NextMajorGrows(n);
  }

  lemma LastPart(n: u32, to: u32)
    requires n < to && MAJOR(n) < 0xFFF
    ensures NextPart(n, to) == to <==> MAJOR(n) == MAJOR(to - 1)
    ensures NextPart(n, to) <= to
  {
    NextMajorGrows(n);
  }

  /** The first part fails for its obstacle; otherwise the obstacles of the others stay as they are. */
  lemma PartExactly(t: Table, n: u32, to: u32, memory: nat -> bool)
    requires Good(t) && MAJOR(n) >= 1 && n < to
    ensures MAJOR(n) <= MAJOR(to - 1)
    ensures
      var (t', o), obstacle := RegisterPart(t, n, to, memory(MAJOR(n))), Obstacle(t, n, to, MAJOR(n), memory);
      && (obstacle.Some? ==> o == Failed(obstacle.value))
      && (obstacle.None? ==>
            && o.Registered? && Good(t')
            && forall m :: MAJOR(n) < m <= MAJOR(to - 1) ==>
                 (Collides(t', SpanPart(n, to, m)) <==> Collides(t, SpanPart(n, to, m))))
  {
    FirstPartIs(n, to);
    var minorct := U32(NextPart(n, to) - n);
    var r := SpanPart(n, to, MAJOR(n));
    RegisterExactly(t, MAJOR(n), MINOR(n), minorct, memory(MAJOR(n)));
    RegisterEffect(t, MAJOR(n), MINOR(n), minorct, memory(MAJOR(n)));
    CollidesInChain(t, r);
    var (t', o) := RegisterPart(t, n, to, memory(MAJOR(n)));
    if o.Registered? {
      forall m | MAJOR(n) < m <= MAJOR(to - 1)
        ensures Collides(t', SpanPart(n, to, m)) <==> Collides(t, SpanPart(n, to, m))
      {
        InsertCollides(t, r, SpanPart(n, to, m), t');
      }
    }
  }

  /** The parts are registered up to the first obstacle. */
  lemma {:induction false} PartsExactly(t: Table, n: u32, to: u32, memory: nat -> bool) returns (stop: nat)
    requires Good(t) && MAJOR(n) >= 1 && n < to
    ensures FirstObstacle(t, n, to, memory, stop, RegisterParts(t, n, to, memory).2)
    decreases if n < to then to - n else 0
  {
    stop := MAJOR(n);
    PartExactly(t, n, to, memory);
    PartsStep(t, n, to, memory);
    var (t', o) := RegisterPart(t, n, to, memory(MAJOR(n)));
    if o.Registered? {
      var next := NextPart(n, to);
      LastPart(n, to);
      if next < to {
        stop := PartsExactly(t', next, to, memory);
        ObstaclesLater(t, t', n, to, memory, stop, RegisterParts(t', next, to, memory).2);
      } else {
        stop := stop + 1;
      }
    }
  }

  lemma ObstaclesLater(t: Table, t': Table, n: u32, to: u32, memory: nat -> bool, stop: nat, e: Option<Errno>)
    requires n < to && MAJOR(n) < MAJOR(to - 1) && NextPart(n, to) < to && MAJOR(n) <= MAJOR(to - 1)
    requires Obstacle(t, n, to, MAJOR(n), memory).None?
    requires forall m :: MAJOR(n) < m <= MAJOR(to - 1) ==>
               (Collides(t', SpanPart(n, to, m)) <==> Collides(t, SpanPart(n, to, m)))
    requires FirstObstacle(t', NextPart(n, to), to, memory, stop, e)
    ensures FirstObstacle(t, n, to, memory, stop, e)
  {
    forall m | MAJOR(n) < m <= MAJOR(to - 1)
      ensures MAJOR(NextPart(n, to)) == MAJOR(n) + 1
      ensures Obstacle(t', NextPart(n, to), to, m, memory) == Obstacle(t, n, to, m, memory)
    {
      LaterParts(n, to, m);
    }
    LaterParts(n, to, MAJOR(n) + 1);
  }

  /** Major m exists, has memory for its entry, and no region there meets the span. */
  predicate Registrable(t: Table, from: u32, to: u32, memory: nat -> bool, m: nat)
    requires from < to && MAJOR(from) <= m <= MAJOR(to - 1)
  {
    m < 512 && memory(m) && !Collides(t, SpanPart(from, to, m))
  }

  ghost predicate AllRegistrable(t: Table, from: u32, to: u32, memory: nat -> bool)
    requires from < to
  {
    forall m :: MAJOR(from) <= m <= MAJOR(to - 1) ==> Registrable(t, from, to, memory, m)
  }

  lemma NoObstacle(t: Table, from: u32, to: u32, memory: nat -> bool, stop: nat, e: Option<Errno>)
    requires from < to && FirstObstacle(t, from, to, memory, stop, e)
    ensures e.None? <==> AllRegistrable(t, from, to, memory)
  {
    if e.Some? {
      assert Obstacle(t, from, to, stop, memory).Some?;
      assert !Registrable(t, from, to, memory, stop);
    } else {
      forall m | MAJOR(from) <= m <= MAJOR(to - 1) ensures Registrable(t, from, to, memory, m) {
        assert Obstacle(t, from, to, m, memory).None?;
      }
    }
  }

  /** register_chrdev_region of a span that does not begin in major 0 and does not wrap around: it
      succeeds exactly when each of its majors is below 512, has memory for its entry, and has no
      region that meets the span.  The error is that of the first major for which this fails. */
  lemma SpanExactly(t: Table, from: u32, count: u32, memory: nat -> bool) returns (stop: nat)
    requires Good(t) && MAJOR(from) >= 1 && count > 0 && from + count < TWO32
    ensures FirstObstacle(t, from, from + count, memory, stop, RegisterSpan(t, from, count, memory).1)
    ensures RegisterSpan(t, from, count, memory).1.None? <==> AllRegistrable(t, from, from + count, memory)
  {
    var to: u32 := from + count;
    stop := PartsExactly(t, from, to, memory);
    var e := RegisterParts(t, from, to, memory).2;
    NoObstacle(t, from, to, memory, stop, e);
    SpanError(t, from, count, to, memory, e);
  }

  lemma SpanError(t: Table, from: u32, count: u32, to: u32, memory: nat -> bool, e: Option<Errno>)
    requires |t| == HASH_SIZE && to == U32(from + count) && e == RegisterParts(t, from, to, memory).2
    ensures RegisterSpan(t, from, count, memory).1 == e
  {
    SpanIsParts(t, from, count, to, memory);
  }

  /** No region is empty. */
  predicate NoneEmpty(t: Table) {
    forall i, j :: 0 <= i < |t| && 0 <= j < |t[i]| ==> t[i][j].minorct > 0
  }

  /** Then regions meet in a number. */
  lemma CollidesExactly(t: Table, from: u32, to: u32, m: nat)
    requires Good(t) && NoneEmpty(t) && from < to && MAJOR(from) <= m <= MAJOR(to - 1)
    ensures
      Collides(t, SpanPart(from, to, m))
      <==> exists dev: u32 :: from <= dev < to && MAJOR(dev) == m && OwnedDev(t, dev)
  {
    var r := SpanPart(from, to, m);
    CollidesInChain(t, r);
    var chain := t[m % HASH_SIZE];
    assert GoodChain(chain, m % HASH_SIZE);
    if j :| 0 <= j < |chain| && chain[j].Meets(r) {
      var minor: nat := if chain[j].baseminor > r.baseminor then chain[j].baseminor else r.baseminor;
      var dev: u32 := m * MINORS + minor;
      assert chain[j].Owns(m, minor);
      assert MAJOR(dev) == m && MINOR(dev) == minor;
      assert OwnedDev(t, dev);
    }
    if dev: u32 :| from <= dev < to && MAJOR(dev) == m && OwnedDev(t, dev) {
      var j :| 0 <= j < |chain| && chain[j].Owns(m, MINOR(dev));
      assert chain[j].Meets(r);
    }
  }

  ghost predicate NumbersFree(t: Table, from: u32, to: u32)
    requires |t| == HASH_SIZE
  {
    forall dev: u32 :: from <= dev < to ==> !OwnedDev(t, dev)
  }

  ghost predicate MajorsReady(from: u32, to: u32, memory: nat -> bool)
    requires from < to
  {
    MAJOR(to - 1) < 512 && forall m :: MAJOR(from) <= m <= MAJOR(to - 1) ==> memory(m)
  }

  lemma RegistrableExactly(t: Table, from: u32, to: u32, memory: nat -> bool)
    requires Good(t) && NoneEmpty(t) && from < to
    ensures AllRegistrable(t, from, to, memory) <==> MajorsReady(from, to, memory) && NumbersFree(t, from, to)
  {
    forall m | MAJOR(from) <= m <= MAJOR(to - 1)
      ensures
        Collides(t, SpanPart(from, to, m))
        <==> exists dev: u32 :: from <= dev < to && MAJOR(dev) == m && OwnedDev(t, dev)
    {
      CollidesExactly(t, from, to, m);
    }
    if AllRegistrable(t, from, to, memory) {
      assert Registrable(t, from, to, memory, MAJOR(to - 1));
      forall dev: u32 | from <= dev < to ensures !OwnedDev(t, dev) {
        assert Registrable(t, from, to, memory, MAJOR(dev));
      }
      forall m | MAJOR(from) <= m <= MAJOR(to - 1) ensures memory(m) {
        assert Registrable(t, from, to, memory, m);
      }
    }
  }

  /** In a table without empty regions: exactly when all majors are below 512, all entries have
      memory, and no number of the span is owned. */
  lemma SpanNumbersExactly(t: Table, from: u32, count: u32, memory: nat -> bool)
    requires Good(t) && NoneEmpty(t) && MAJOR(from) >= 1 && count > 0 && from + count < TWO32
    ensures
      RegisterSpan(t, from, count, memory).1.None?
      <==> MajorsReady(from, from + count, memory) && NumbersFree(t, from, from + count)
  {
    RegistrableExactly(t, from, from + count, memory);
    var stop := SpanExactly(t, from, count, memory);
  }

  // ---------- all or nothing

  /** register_chrdev_region is all or nothing when its first major is not 0 and the end of the
      span does not wrap around; it is all exactly when every major of the span can be registered. */
  lemma AllOrNothing(t: Table, from: u32, count: u32, memory: nat -> bool)
    requires Good(t) && MAJOR(from) >= 1 && from + count < TWO32
    ensures
      var (t', e) := RegisterSpan(t, from, count, memory);
      && Good(t')
      && (e.None? ==> forall dev: u32 :: OwnedDev(t', dev) <==> OwnedDev(t, dev) || from <= dev < from + count)
      && (e.Some? ==> t' == t)
      && (count > 0 ==> (e.None? <==> AllRegistrable(t, from, from + count, memory)))
  {
    var to: u32 := from + count;
    SpanIsParts(t, from, count, to, memory);
    if count > 0 {
      var stop := SpanExactly(t, from, count, memory);
    }
    if RegisterParts(t, from, to, memory).2.None? {
      PartsOwn(t, from, to, memory);
    } else {
      RollbackRestores(t, from, to, memory);
    }
  }

  lemma {:induction false} NoMajorZero(t: Table, dev: u32)
    requires Good(t) && (MAJOR(dev) == 0 || MAJOR(dev) >= MAJOR_MAX)
    ensures !OwnedDev(t, dev)
  {
  }

  /** Whatever the arguments, a call leaves a good table. */
  lemma {:induction false} PartsKeepGood(t: Table, n: u32, to: u32, memory: nat -> bool)
    requires Good(t)
    ensures Good(RegisterParts(t, n, to, memory).0)
    decreases if n < to then to - n else 0
  {
    if n < to {
      var (t1, o) := RegisterPart(t, n, to, memory(MAJOR(n)));
      RegisterEffect(t, MAJOR(n), MINOR(n), U32(NextPart(n, to) - n), memory(MAJOR(n)));
      if o.Registered? {
        NextMajorGrows(n);
        PartsKeepGood(t1, NextPart(n, to), to, memory);
      }
    }
  }

  lemma {:induction false} RollbackKeepsGood(t: Table, n: u32, to: u32)
    requires Good(t)
    requires n < to ==> to <= MAJOR_MAX * MINORS
    ensures Good(Rollback(t, n, to))
    decreases if n < to then to - n else 0
  {
    if n < to {
      NextMajorGrows(n);
      var part := Region(MAJOR(n), MINOR(n), U32(NextMajor(n) - n));
      UnregisterKeepsGood(t, part);
      RollbackKeepsGood(Unregister(t, part), NextMajor(n), to);
    }
  }

  lemma SpanKeepsGood(t: Table, from: u32, count: u32, memory: nat -> bool)
    requires Good(t)
    ensures Good(RegisterSpan(t, from, count, memory).0)
  {
    var (t', n, e) := RegisterParts(t, from, U32(from + count), memory);
    PartsKeepGood(t, from, U32(from + count), memory);
    FailurePoint(t, from, U32(from + count), memory);
    if e.Some? {
      RollbackKeepsGood(t', from, n);
    }
  }

  /** A successful call has registered its whole span exactly when the span is empty, or begins
      at a major other than 0 and does not wrap around: major 0 asks for an allocation, and a
      wrapped end makes the loop stop at once. */
  lemma SuccessCoversExactly(t: Table, from: u32, count: u32, memory: nat -> bool)
    requires Good(t) && RegisterSpan(t, from, count, memory).1.None?
    ensures
      var t' := RegisterSpan(t, from, count, memory).0;
      (forall dev: u32 :: from <= dev < from + count ==> OwnedDev(t', dev))
      <==> (count == 0 || (MAJOR(from) >= 1 && from + count < TWO32))
  {
    var t' := RegisterSpan(t, from, count, memory).0;
    SpanKeepsGood(t, from, count, memory);
    if count > 0 && MAJOR(from) >= 1 && from + count < TWO32 {
      AllOrNothing(t, from, count, memory);
    } else if count > 0 && MAJOR(from) == 0 {
      NoMajorZero(t', from);
    } else if count > 0 {
      NoMajorZero(t', TWO32 - 1);
    }
  }

  /** Taking out a region of major 0 changes nothing. */
  lemma MajorZeroAbsent(t: Table, r: Region)
    requires Good(t) && r.major == 0
    ensures Unregister(t, r) == t
  {
    RemoveAbsent(t[0], r);
    assert t[0 := t[0]] == t;
  }

  /** A span that begins in major 0 and fails after its first part leaves behind the region that
      was allocated for that part: the rollback looks for it under major 0. */
  lemma MajorZeroLeaks(t: Table, from: u32, count: u32, memory: nat -> bool)
    requires Good(t) && MAJOR(from) == 0
    requires RegisterSpan(t, from, count, memory).1.Some?
    requires RegisterPart(t, from, U32(from + count), memory(0)).1.Registered?
    ensures
      var (t1, o) := RegisterPart(t, from, U32(from + count), memory(0));
      RegisterSpan(t, from, count, memory).0 == t1 != t && InUse(t1, o.region.major)
  {
    var to := U32(from + count);
    var (t1, o) := RegisterPart(t, from, to, memory(0));
    RegisterEffect(t, 0, MINOR(from), U32(NextPart(from, to) - from), memory(0));
    NextMajorGrows(from);
    RollbackLeaves(t, from, to, memory);
    InsertShows(t, o.region, t1);
  }

  /** The rollback of such a span restores the table as it was after the first part. */
  lemma RollbackLeaves(t: Table, n: u32, to: u32, memory: nat -> bool)
    requires Good(t) && MAJOR(n) == 0
    requires RegisterParts(t, n, to, memory).2.Some?
    requires RegisterPart(t, n, to, memory(0)).1.Registered?
    ensures
      var (t', stop, _) := RegisterParts(t, n, to, memory);
      (n < stop ==> stop <= MAJOR_MAX * MINORS)
      && Rollback(t', n, stop) == RegisterPart(t, n, to, memory(0)).0
  {
    FailurePoint(t, n, to, memory);
    var t1 := RegisterPart(t, n, to, memory(0)).0;
    RegisterEffect(t, 0, MINOR(n), U32(NextPart(n, to) - n), memory(0));
    NextMajorGrows(n);
    PartsStep(t, n, to, memory);
    var part := Region(0, MINOR(n), U32(NextMajor(n) - n));
    RollbackFrom(t1, n, NextPart(n, to), to, memory);
    MajorZeroAbsent(t1, part);
  }

  /** The rollback of a failed span takes out its first part, whatever that has registered, after
      it has restored the table from the second part on. */
  lemma RollbackFrom(t1: Table, n: u32, next: u32, to: u32, memory: nat -> bool)
    requires Good(t1) && MAJOR(n) < MAJOR_MAX && n < next == NextPart(n, to) && MAJOR(next) >= 1
    requires RegisterParts(t1, next, to, memory).2.Some?
    ensures
      var (t', stop, _) := RegisterParts(t1, next, to, memory);
      && n < stop <= MAJOR_MAX * MINORS
      && Rollback(t', n, stop) == Unregister(t1, Region(MAJOR(n), MINOR(n), U32(NextMajor(n) - n)))
  {
    var (t', stop, _) := RegisterParts(t1, next, to, memory);
    FailurePoint(t1, next, to, memory);
    NextMajorGrows(n);
    assert next == NextMajor(n) && n < stop <= MAJOR_MAX * MINORS;
    RollbackRestores(t1, next, to, memory);
    var part := Region(MAJOR(n), MINOR(n), U32(NextMajor(n) - n));
    RollbackStep(t', n, stop);
    RollbackCommutes(t', part, next, stop);
  }

  lemma InsertShows(t: Table, r: Region, t1: Table)
    requires |t| == HASH_SIZE
    requires var i := r.major % HASH_SIZE; t1 == t[i := Insert(t[i], r)]
    ensures t1 != t && InUse(t1, r.major)
  {
    var i := r.major % HASH_SIZE;
    assert |t1[i]| == |t[i]| + 1;
    assert t1[i][Slot(t[i], r)] == r;
  }

  /** Every major that can be allocated is in use. */
  predicate NoneFree(t: Table)
    requires |t| == HASH_SIZE
  {
    forall k :: DYN_EXT_END <= k <= DYN_EXT_START ==> InUse(t, k)
  }

  /** A failing call restores the table exactly when its first major is not 0, or when nothing can
      be allocated for major 0. */
  lemma FailureRestoresExactly(t: Table, from: u32, count: u32, memory: nat -> bool)
    requires Good(t) && RegisterSpan(t, from, count, memory).1.Some?
    ensures
      RegisterSpan(t, from, count, memory).0 == t <==> (MAJOR(from) >= 1 || !memory(0) || NoneFree(t))
  {
    var to := U32(from + count);
    if MAJOR(from) >= 1 {
      RollbackRestores(t, from, to, memory);
    } else {
      FirstPartFails(t, from, to, memory(0));
      if RegisterPart(t, from, to, memory(0)).1.Registered? {
        MajorZeroLeaks(t, from, count, memory);
      }
    }
  }

  /** When the part of a span in major 0 fails. */
  lemma FirstPartFails(t: Table, n: u32, to: u32, memory: bool)
    requires Good(t) && MAJOR(n) == 0 && n < to
    ensures RegisterPart(t, n, to, memory).1.Failed? <==> !memory || NoneFree(t)
    ensures
      RegisterPart(t, n, to, memory).1.Failed? ==>
        RegisterPart(t, n, to, memory) == (t, Failed(if memory then EBUSY else ENOMEM))
  {
    NextMajorGrows(n);
    RegisterEffect(t, 0, MINOR(n), U32(NextPart(n, to) - n), memory);
    if memory {
      DynamicRegistration(t, MINOR(n), U32(NextPart(n, to) - n));
    }
  }

  /** How a span that begins in major 0 ends: at once without memory or a free major; otherwise it goes
      on, behind the region that was allocated, with its parts from major 1 on. */
  ghost predicate ZeroCourse(t: Table, from: u32, to: u32, memory: nat -> bool, t1: Table, stop: nat, e: Option<Errno>)
    requires |t| == HASH_SIZE && from < to
  {
    if !memory(0) then e == Some(ENOMEM)
    else if NoneFree(t) then e == Some(EBUSY)
    else
      && Good(t1) && t1 == RegisterPart(t, from, to, true).0
      && if to <= MINORS then e == None else FirstObstacle(t1, MINORS, to, memory, stop, e)
  }

  lemma PartsFromZero(t: Table, n: u32, to: u32, memory: nat -> bool) returns (t1: Table, stop: nat)
    requires Good(t) && MAJOR(n) == 0 && n < to
    ensures ZeroCourse(t, n, to, memory, t1, stop, RegisterParts(t, n, to, memory).2)
  {
    t1, stop := t, 0;
    PartsStep(t, n, to, memory);
    FirstPartFails(t, n, to, memory(0));
    if RegisterPart(t, n, to, memory(0)).1.Registered? {
      FirstPartGood(t, n, to, memory(0));
      t1 := RegisterPart(t, n, to, memory(0)).0;
      if to > MINORS {
        stop := PartsExactly(t1, MINORS, to, memory);
      }
    }
  }

  lemma SpanFromZero(t: Table, from: u32, count: u32, memory: nat -> bool) returns (t1: Table, stop: nat)
    requires Good(t) && MAJOR(from) == 0 && count > 0 && from + count < TWO32
    ensures ZeroCourse(t, from, from + count, memory, t1, stop, RegisterSpan(t, from, count, memory).1)
  {
    var to: u32 := from + count;
    t1, stop := PartsFromZero(t, from, to, memory);
    SpanError(t, from, count, to, memory, RegisterParts(t, from, to, memory).2);
  }

  lemma FirstPartGood(t: Table, n: u32, to: u32, memory: bool)
    requires Good(t) && MAJOR(n) == 0 && n < to && RegisterPart(t, n, to, memory).1.Registered?
    ensures Good(RegisterPart(t, n, to, memory).0) && NextPart(n, to) == if to <= MINORS then to else MINORS
  {
    NextMajorGrows(n);
    RegisterEffect(t, 0, MINOR(n), U32(NextPart(n, to) - n), memory);
  }

  /** The last number of major 0 and the first of major 1 in an empty table, with memory for one
      region: the call fails, and major 511 stays in use. */
  lemma LeakExample(memory: nat -> bool)
    requires memory(0) && !memory(1)
    ensures
      var (t, e) := RegisterSpan(EMPTY, 0xF_FFFF, 2, memory);
      e == Some(ENOMEM) && t != EMPTY && InUse(t, 511)
  {
    var from: u32, to: u32 := 0xF_FFFF, 0x10_0001;
    PartsStep(EMPTY, from, to, memory);
    var (t1, o) := RegisterPart(EMPTY, from, to, memory(0));
    FirstPartFails(EMPTY, from, to, memory(0));
    assert !InUse(EMPTY, 511);
    DynamicRegistration(EMPTY, MINOR(from), U32(NextPart(from, to) - from));
    assert o.region.major == 511;
    PartsStep(t1, NextPart(from, to), to, memory);
    SpanIsParts(EMPTY, from, 2, to, memory);
    MajorZeroLeaks(EMPTY, from, 2, memory);
  }

  /** A span over the end of the device numbers: the call succeeds and registers nothing. */
  lemma WrapExample(memory: nat -> bool)
    ensures RegisterSpan(EMPTY, 0xFFFF_FFFF, 2, memory) == (EMPTY, None)
  {
  }

  // ---------- taking a span out again

  /** Where the loop of unregister_chrdev_region stands after k rounds.  Behind the last major of
      all, 4095, it goes back to device number 0. */
  function AfterRounds(n: u32, to: u32, k: nat): u32
    decreases k
  {
    if n >= to || k == 0 then n else AfterRounds(NextPart(n, to), to, k - 1)
  }

  lemma {:induction false} NeverPastLast(n: u32, to: u32, k: nat)
    requires n < to && to > 0xFFF * MINORS
    ensures AfterRounds(n, to, k) < to
    decreases k
  {
    if k > 0 {
      if MAJOR(n) < 0xFFF {
        NextMajorGrows(n);
      }
      NeverPastLast(NextPart(n, to), to, k - 1);
    }
  }

  lemma {:induction false} RoundsToEnd(n: u32, to: u32) returns (k: nat)
    requires n < to ==> to <= 0xFFF * MINORS
    ensures AfterRounds(n, to, k) >= to
    decreases if n < to then to - n else 0
  {
    k := 0;
    if n < to {
      NextMajorGrows(n);
      k := RoundsToEnd(NextPart(n, to), to);
      k := k + 1;
    }
  }

  /** The loop of unregister_chrdev_region ends exactly when there is nothing to take out or the
      span stops before major 4095. */
  lemma UnregisterEndsExactly(from: u32, count: u32)
    ensures
      var to := U32(from + count);
      (exists k: nat :: AfterRounds(from, to, k) >= to) <==> (from < to ==> to <= 0xFFF * MINORS)
  {
    var to := U32(from + count);
    if from < to && to > 0xFFF * MINORS {
      forall k: nat ensures AfterRounds(from, to, k) < to {
        NeverPastLast(from, to, k);
      }
    } else {
      var k := RoundsToEnd(from, to);
    }
  }

  /** The loop of unregister_chrdev_region, for the spans where it ends. */
  function UnregisterParts(t: Table, n: u32, to: u32): (t': Table)
    requires |t| == HASH_SIZE
    requires n < to ==> to <= 0xFFF * MINORS
    ensures |t'| == HASH_SIZE
    decreases if n < to then to - n else 0
  {
    if n >= to then t
    else
      NextMajorGrows(n);
      UnregisterParts(Unregister(t, Region(MAJOR(n), MINOR(n), U32(NextPart(n, to) - n))), NextPart(n, to), to)
  }

  lemma UnregisterStep(t: Table, n: u32, to: u32)
    requires |t| == HASH_SIZE && n < to <= 0xFFF * MINORS
    ensures
      var part := Region(MAJOR(n), MINOR(n), U32(NextPart(n, to) - n));
      n < NextPart(n, to) && UnregisterParts(t, n, to) == UnregisterParts(Unregister(t, part), NextPart(n, to), to)
  {
    NextMajorGrows(n);
  }

  lemma {:induction false} UnregisterPartsCommutes(t: Table, r: Region, n: u32, to: u32)
    requires |t| == HASH_SIZE
    requires n < to ==> to <= 0xFFF * MINORS
    ensures UnregisterParts(Unregister(t, r), n, to) == Unregister(UnregisterParts(t, n, to), r)
    decreases if n < to then to - n else 0
  {
    if n < to {
      NextMajorGrows(n);
      var part := Region(MAJOR(n), MINOR(n), U32(NextPart(n, to) - n));
      UnregistersCommute(t, r, part);
      UnregisterPartsCommutes(Unregister(t, part), r, NextPart(n, to), to);
    }
  }

  /** unregister_chrdev_region undoes a successful register_chrdev_region, chain by chain. */
  lemma {:induction false} UnregisterUndoesRegister(t: Table, n: u32, to: u32, memory: nat -> bool)
    requires Good(t) && MAJOR(n) >= 1
    requires RegisterParts(t, n, to, memory).2.None?
    ensures n < to ==> to <= MAJOR_MAX * MINORS
    ensures UnregisterParts(RegisterParts(t, n, to, memory).0, n, to) == t
    decreases if n < to then to - n else 0
  {
    if n < to {
      var (t1, o) := RegisterPart(t, n, to, memory(MAJOR(n)));
      RegisterEffect(t, MAJOR(n), MINOR(n), U32(NextPart(n, to) - n), memory(MAJOR(n)));
      NextMajorGrows(n);
      var next := NextPart(n, to);
      var t' := RegisterParts(t1, next, to, memory).0;
      if next < to {
        UnregisterUndoesRegister(t1, next, to, memory);
      }
      UnregisterPartsCommutes(t', o.region, next, to);
    }
  }

  // ---------- taking a span out of any good table

  lemma {:induction false} UnregisterPartsKeepGood(t: Table, n: u32, to: u32)
    requires Good(t)
    requires n < to ==> to <= 0xFFF * MINORS
    ensures Good(UnregisterParts(t, n, to))
    decreases if n < to then to - n else 0
  {
    if n < to {
      NextMajorGrows(n);
      var part := PartAt(n, to);
      UnregisterKeepsGood(t, part);
      UnregisterPartsKeepGood(Unregister(t, part), NextPart(n, to), to);
    }
  }

  function PartAt(n: u32, to: u32): Region {
    Region(MAJOR(n), MINOR(n), U32(NextPart(n, to) - n))
  }

  /** The regions that a span from n on consists of. */
  predicate IsPart(n: u32, to: u32, r: Region)
    requires n < to ==> to <= 0xFFF * MINORS
    decreases if n < to then to - n else 0
  {
    if n >= to then false
    else
      NextMajorGrows(n);
      r == PartAt(n, to) || IsPart(NextPart(n, to), to, r)
  }

  predicate Holds(t: Table, r: Region)
    requires |t| == HASH_SIZE
  {
    r in t[r.major % HASH_SIZE]
  }

  lemma {:induction false} PartMajor(n: u32, to: u32, r: Region)
    requires n < to ==> to <= 0xFFF * MINORS
    requires IsPart(n, to, r)
    ensures n < to && r.major >= MAJOR(n)
    decreases if n < to then to - n else 0
  {
    NextMajorGrows(n);
    if r != PartAt(n, to) {
      PartMajor(NextPart(n, to), to, r);
    }
  }

  /** A later part is another region than the first one. */
  lemma LaterPart(n: u32, to: u32, r: Region)
    requires n < to <= 0xFFF * MINORS && IsPart(NextPart(n, to), to, r)
    ensures r != PartAt(n, to)
  {
    NextMajorGrows(n);
    PartMajor(NextPart(n, to), to, r);
  }

  lemma {:induction false} RemoveOthers(chain: seq<Region>, r: Region, x: Region)
    requires x != r
    ensures x in Remove(chain, r) <==> x in chain
  {
    if chain != [] && chain[0] != r {
      RemoveOthers(chain[1..], r, x);
    }
  }

  lemma UnregisterOthers(t: Table, r: Region, x: Region)
    requires |t| == HASH_SIZE && x != r
    ensures Holds(Unregister(t, r), x) <==> Holds(t, x)
  {
    RemoveOthers(t[r.major % HASH_SIZE], r, x);
  }

  lemma {:induction false} RemoveOwns(chain: seq<Region>, r: Region, bucket: nat, major: nat, minor: nat)
    requires GoodChain(chain, bucket)
    ensures
      OwnedIn(Remove(chain, r), major, minor)
      <==> OwnedIn(chain, major, minor) && !(r in chain && r.Owns(major, minor))
  {
    if r !in chain {
      RemoveAbsent(chain, r);
    } else {
      var p := FirstOf(chain, r);
      RemoveAt(chain, r, p);
      var c := Remove(chain, r);
      assert forall j :: 0 <= j < |c| ==> c[j] == chain[if j < p then j else j + 1];
      if r.Owns(major, minor) {
        OwnerIsUnique(chain, bucket, p, major, minor);
      } else if j :| 0 <= j < |chain| && chain[j].Owns(major, minor) {
        assert c[if j < p then j else j - 1] == chain[j];
      }
    }
  }

  lemma {:induction false} FirstOf(chain: seq<Region>, r: Region) returns (p: nat)
    requires r in chain
    ensures p < |chain| && chain[p] == r && forall j :: 0 <= j < p ==> chain[j] != r
  {
    p := 0;
    if chain[0] != r {
      p := FirstOf(chain[1..], r);
      assert forall j :: 0 < j < p + 1 ==> chain[j] == chain[1..][j - 1];
      p := p + 1;
    }
  }

  /** A removal frees exactly the numbers of its region, if that is there. */
  lemma UnregisterOwns(t: Table, r: Region, major: nat, minor: nat)
    requires Good(t)
    ensures
      Owned(Unregister(t, r), major, minor) <==> Owned(t, major, minor) && !(Holds(t, r) && r.Owns(major, minor))
  {
    RemoveOwns(t[r.major % HASH_SIZE], r, r.major % HASH_SIZE, major, minor);
  }

  /** The number belongs to a part of the span that the table holds. */
  ghost predicate InHeldPart(t: Table, n: u32, to: u32, dev: u32)
    requires |t| == HASH_SIZE
    requires n < to ==> to <= 0xFFF * MINORS
  {
    exists r :: IsPart(n, to, r) && Holds(t, r) && r.Owns(MAJOR(dev), MINOR(dev))
  }

  lemma HeldPartStep(t: Table, n: u32, to: u32, dev: u32)
    requires |t| == HASH_SIZE && n < to <= 0xFFF * MINORS
    ensures
      var part := PartAt(n, to);
      InHeldPart(t, n, to, dev)
      <==> (Holds(t, part) && part.Owns(MAJOR(dev), MINOR(dev)))
           || InHeldPart(Unregister(t, part), NextPart(n, to), to, dev)
  {
    var part, next := PartAt(n, to), NextPart(n, to);
    var t1 := Unregister(t, part);
    NextMajorGrows(n);
    assert IsPart(n, to, part);
    forall r ensures IsPart(n, to, r) <==> r == part || IsPart(next, to, r) {
    }
    forall r | IsPart(next, to, r) ensures Holds(t1, r) <==> Holds(t, r) {
      LaterPart(n, to, r);
      UnregisterOthers(t, part, r);
    }
  }

  /** unregister_chrdev_region frees exactly the numbers of those parts of its span that the table
      holds, whatever else has happened to the table. */
  lemma {:induction false} UnregisterPartsOwn(t: Table, n: u32, to: u32, dev: u32)
    requires Good(t)
    requires n < to ==> to <= 0xFFF * MINORS
    ensures OwnedDev(UnregisterParts(t, n, to), dev) <==> OwnedDev(t, dev) && !InHeldPart(t, n, to, dev)
    decreases if n < to then to - n else 0
  {
    if n < to {
      var part, next := PartAt(n, to), NextPart(n, to);
      NextMajorGrows(n);
      UnregisterKeepsGood(t, part);
      UnregisterOwns(t, part, MAJOR(dev), MINOR(dev));
      UnregisterPartsOwn(Unregister(t, part), next, to, dev);
      HeldPartStep(t, n, to, dev);
    }
  }

  // ---------- registering a span, anything else, and taking the span out

  ghost predicate HoldsParts(t: Table, n: u32, to: u32)
    requires |t| == HASH_SIZE
    requires n < to ==> to <= 0xFFF * MINORS
  {
    forall r :: IsPart(n, to, r) ==> Holds(t, r)
  }

  lemma InsertHolds(chain: seq<Region>, r: Region, x: Region)
    ensures x in Insert(chain, r) <==> x in chain || x == r
  {
    var p := Slot(chain, r);
    assert chain == chain[..p] + chain[p..];
  }

  lemma RegisterHolds(t: Table, major: u32, baseminor: u32, minorct: u32, memory: bool, x: Region)
    requires Good(t)
    ensures
      var (t', o) := Register(t, major, baseminor, minorct, memory);
      |t'| == HASH_SIZE && (Holds(t', x) <==> Holds(t, x) || (o.Registered? && o.region == x))
  {
    RegisterEffect(t, major, baseminor, minorct, memory);
    var o := Register(t, major, baseminor, minorct, memory).1;
    if o.Registered? {
      InsertHolds(t[o.region.major % HASH_SIZE], o.region, x);
    }
  }

  lemma {:induction false} PartsKeepHeld(t: Table, n: u32, to: u32, memory: nat -> bool, x: Region)
    requires Good(t) && Holds(t, x)
    ensures Holds(RegisterParts(t, n, to, memory).0, x)
    decreases if n < to then to - n else 0
  {
    if n < to {
      var (t1, o) := RegisterPart(t, n, to, memory(MAJOR(n)));
      RegisterEffect(t, MAJOR(n), MINOR(n), U32(NextPart(n, to) - n), memory(MAJOR(n)));
      RegisterHolds(t, MAJOR(n), MINOR(n), U32(NextPart(n, to) - n), memory(MAJOR(n)), x);
      PartsStep(t, n, to, memory);
      if o.Registered? {
        NextMajorGrows(n);
        PartsKeepHeld(t1, NextPart(n, to), to, memory, x);
      }
    }
  }

  /** After a successful registration the table holds every part of the span. */
  lemma {:induction false} RegisteredParts(t: Table, n: u32, to: u32, memory: nat -> bool)
    requires Good(t) && MAJOR(n) >= 1
    requires RegisterParts(t, n, to, memory).2.None?
    ensures n < to ==> to <= MAJOR_MAX * MINORS
    ensures HoldsParts(RegisterParts(t, n, to, memory).0, n, to)
    decreases if n < to then to - n else 0
  {
    if n < to {
      var (t1, o) := RegisterPart(t, n, to, memory(MAJOR(n)));
      RegisterEffect(t, MAJOR(n), MINOR(n), U32(NextPart(n, to) - n), memory(MAJOR(n)));
      RegisterHolds(t, MAJOR(n), MINOR(n), U32(NextPart(n, to) - n), memory(MAJOR(n)), PartAt(n, to));
      PartsStep(t, n, to, memory);
      NextMajorGrows(n);
      var next := NextPart(n, to);
      PartsKeepHeld(t1, next, to, memory, PartAt(n, to));
      if next < to {
        RegisteredParts(t1, next, to, memory);
      }
    }
  }

  /** No operation of the run takes out a part of the span. */
  predicate Spares(ops: seq<Op>, n: u32, to: u32)
    requires n < to ==> to <= 0xFFF * MINORS
  {
    forall i :: 0 <= i < |ops| && ops[i].Drop? ==> !IsPart(n, to, ops[i].region)
  }

  lemma {:induction false} RunKeepsParts(t: Table, ops: seq<Op>, n: u32, to: u32)
    requires Good(t) && Proper(t, ops, TWO32 - 1)
    requires n < to ==> to <= 0xFFF * MINORS
    requires HoldsParts(t, n, to) && Spares(ops, n, to)
    ensures Good(Run(t, ops)) && HoldsParts(Run(t, ops), n, to)
    decreases |ops|
  {
    if ops != [] {
      StepKeepsGood(t, ops[0]);
      forall r | IsPart(n, to, r) ensures Holds(Apply(t, ops[0]), r) {
        match ops[0] {
          case Add(major, baseminor, minorct, memory) => RegisterHolds(t, major, baseminor, minorct, memory, r);
          case Drop(region) => UnregisterOthers(t, region, r);
        }
      }
      RunKeepsParts(Apply(t, ops[0]), ops[1..], n, to);
    }
  }

  lemma {:induction false} PartsCover(n: u32, to: u32, dev: u32)
    requires n < to ==> to <= MAJOR_MAX * MINORS
    ensures (exists r :: IsPart(n, to, r) && r.Owns(MAJOR(dev), MINOR(dev))) <==> n <= dev < to
    decreases if n < to then to - n else 0
  {
    if n < to {
      NextMajorGrows(n);
      var part, next := PartAt(n, to), NextPart(n, to);
      PartOwns(n, to, dev);
      PartsCover(next, to, dev);
      assert IsPart(n, to, part);
      forall r ensures IsPart(n, to, r) <==> r == part || IsPart(next, to, r) {
      }
    }
  }

  /** A span is registered, other registrations and removals follow, and the span is taken out again:
      exactly its numbers are free, and all others are as those operations left them. */
  lemma RegisterRunUnregister(t: Table, n: u32, to: u32, memory: nat -> bool, ops: seq<Op>)
    requires Good(t) && MAJOR(n) >= 1 && RegisterParts(t, n, to, memory).2.None?
    requires n < to ==> to <= 0xFFF * MINORS
    requires Spares(ops, n, to) && Proper(RegisterParts(t, n, to, memory).0, ops, TWO32 - 1)
    ensures
      var t' := Run(RegisterParts(t, n, to, memory).0, ops);
      && Good(t') && Good(UnregisterParts(t', n, to))
      && forall dev: u32 :: OwnedDev(UnregisterParts(t', n, to), dev) <==> OwnedDev(t', dev) && !(n <= dev < to)
  {
    var t0 := RegisterParts(t, n, to, memory).0;
    PartsKeepGood(t, n, to, memory);
    RegisteredParts(t, n, to, memory);
    RunKeepsParts(t0, ops, n, to);
    var t' := Run(t0, ops);
    UnregisterPartsKeepGood(t', n, to);
    forall dev: u32
      ensures OwnedDev(UnregisterParts(t', n, to), dev) <==> OwnedDev(t', dev) && !(n <= dev < to)
    {
      UnregisterPartsOwn(t', n, to, dev);
      PartsCover(n, to, dev);
    }
  }
}
