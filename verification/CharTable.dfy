/** The character-device registry of fs/char_device.c as a value: a hash table of chains of
    device-number regions, each chain sorted by major and then by minor range. */
module CharTable {
  import opened Machine

  const HASH_SIZE: nat := 127
  const MAJOR_MAX: nat := 512
  const DYN_EXT_START: nat := 511
  const DYN_EXT_END: nat := 384
  const MINORS: nat := 0x10_0000

  datatype Errno = EINVAL | ENOMEM | EBUSY

  /** The numbers (major, baseminor) up to, not including, (major, baseminor + minorct). */
  datatype Region = Region(major: u32, baseminor: u32, minorct: u32) {
    /** The region passed the size check, and its end does not wrap around. */
    predicate Regular() {
      1 <= major < MAJOR_MAX && FitsMajor(baseminor, minorct) && baseminor + minorct < TWO32
    }

    /** Its minors are those of a device number. */
    predicate InRange() {
      baseminor + minorct <= MINORS
    }

    /** The sum as the source forms it, in 32 bits. */
    function End(): u32 {
      U32(baseminor + minorct)
    }

    predicate Owns(major': nat, minor: nat) {
      major == major' && baseminor <= minor < baseminor + minorct
    }

    /** The test of the lookup, with its 32-bit sum. */
    predicate Covers(major': u32, minor: u32) {
      major == major' && baseminor <= minor < End()
    }

    /** The two intervals of minors of one major intersect.  An empty interval intersects
        another one when it lies strictly inside. */
    predicate Meets(r: Region) {
      major == r.major && baseminor < r.baseminor + r.minorct && r.baseminor < baseminor + minorct
    }
  }

  /** Position in a chain: a ends before b begins. */
  predicate Before(a: Region, b: Region) {
    a.major < b.major || (a.major == b.major && a.End() <= b.baseminor)
  }

  predicate Sorted(chain: seq<Region>) {
    forall j, k :: 0 <= j < k < |chain| ==> Before(chain[j], chain[k])
  }

  predicate GoodChain(chain: seq<Region>, bucket: nat) {
    && Sorted(chain)
    && forall j :: 0 <= j < |chain| ==> chain[j].Regular() && chain[j].major % HASH_SIZE == bucket
  }

  type Table = seq<seq<Region>>

  predicate Good(t: Table) {
    |t| == HASH_SIZE && forall i :: 0 <= i < HASH_SIZE ==> GoodChain(t[i], i)
  }

  /** How many entries the insertion scan passes. */
  function Slot(chain: seq<Region>, r: Region): (p: nat)
    ensures p <= |chain|
  {
    if chain == [] || !Before(chain[0], r) then 0 else 1 + Slot(chain[1..], r)
  }

  /** The scan stops at an entry that r does not come before. */
  predicate Busy(chain: seq<Region>, r: Region) {
    Slot(chain, r) < |chain| && !Before(r, chain[Slot(chain, r)])
  }

  function Insert(chain: seq<Region>, r: Region): seq<Region> {
    chain[..Slot(chain, r)] + [r] + chain[Slot(chain, r)..]
  }

  /** Takes out the first entry equal to r, if there is one. */
  function Remove(chain: seq<Region>, r: Region): (c: seq<Region>)
    ensures |chain| - 1 <= |c| <= |chain|
  {
    if chain == [] then [] else if chain[0] == r then chain[1..] else [chain[0]] + Remove(chain[1..], r)
  }

  predicate HasMajor(chain: seq<Region>, major: nat) {
    exists j :: 0 <= j < |chain| && chain[j].major == major
  }

  predicate InUse(t: Table, major: nat)
    requires |t| == HASH_SIZE
  {
    HasMajor(t[major % HASH_SIZE], major)
  }

  /** find_dynamic_major: the first free major from i down to DYN_EXT_END. */
  function FindDynamic(t: Table, i: nat): Option<nat>
    requires |t| == HASH_SIZE
  {
    if i < DYN_EXT_END then None else if !InUse(t, i) then Some(i) else FindDynamic(t, i - 1)
  }

  /** A search from i on, after all higher majors were found in use. */
  lemma {:induction false} FoundDynamic(t: Table, top: nat, i: nat)
    requires |t| == HASH_SIZE && i <= top
    requires forall k :: i < k <= top ==> InUse(t, k)
    requires i >= DYN_EXT_END ==> !InUse(t, i)
    ensures FindDynamic(t, top) == if i < DYN_EXT_END then None else Some(i)
  {
    if i < top {
      FoundDynamic(t, top - 1, i);
    }
  }

  datatype Outcome = Registered(region: Region) | Failed(error: Errno)

  /** The size check of __register_chrdev_region, in 32-bit arithmetic. */
  predicate FitsMajor(baseminor: u32, minorct: u32) {
    minorct <= U32(MINORS - baseminor)
  }

  /** __register_chrdev_region */
  function Register(t: Table, major: u32, baseminor: u32, minorct: u32, memory: bool): (Table, Outcome)
    requires |t| == HASH_SIZE
  {
    if major >= MAJOR_MAX || !FitsMajor(baseminor, minorct) then (t, Failed(EINVAL))
    else if !memory then (t, Failed(ENOMEM))
    else
      var chosen := if major == 0 then FindDynamic(t, DYN_EXT_START) else Some(major as nat);
      if chosen.None? || chosen.value >= MAJOR_MAX then (t, Failed(EBUSY))
      else
        var r := Region(chosen.value, baseminor, minorct);
        var i := r.major % HASH_SIZE;
        if Busy(t[i], r) then (t, Failed(EBUSY)) else (t[i := Insert(t[i], r)], Registered(r))
  }

  /** __unregister_chrdev_region */
  function Unregister(t: Table, r: Region): (t': Table)
    requires |t| == HASH_SIZE
    ensures |t'| == HASH_SIZE
  {
    var i := r.major % HASH_SIZE;
    t[i := Remove(t[i], r)]
  }

  predicate OwnedIn(chain: seq<Region>, major: nat, minor: nat) {
    exists j :: 0 <= j < |chain| && chain[j].Owns(major, minor)
  }

  /** The device number belongs to some region. */
  predicate Owned(t: Table, major: nat, minor: nat)
    requires |t| == HASH_SIZE
  {
    OwnedIn(t[major % HASH_SIZE], major, minor)
  }

  // ---------- chains

  lemma {:induction false} SlotSplits(chain: seq<Region>, r: Region)
    requires Sorted(chain)
    ensures forall j :: 0 <= j < Slot(chain, r) ==> Before(chain[j], r)
    ensures Slot(chain, r) < |chain| ==> !Before(chain[Slot(chain, r)], r)
  {
    if chain != [] && Before(chain[0], r) {
      SlotSplits(chain[1..], r);
      assert forall j :: 0 < j < Slot(chain, r) ==> chain[j] == chain[1..][j - 1];
    }
  }

  /** An entry meets a range whose end does not wrap around exactly when neither comes before the
      other. */
  lemma MeetsExactly(e: Region, r: Region)
    requires e.Regular() && r.baseminor + r.minorct < TWO32
    ensures e.Meets(r) <==> !Before(e, r) && !Before(r, e)
  {
  }

  /** A range whose end wraps around seems to come before everything that does not come before it. */
  lemma WrappedBefore(e: Region, r: Region)
    requires e.Regular() && FitsMajor(r.baseminor, r.minorct) && r.baseminor + r.minorct >= TWO32
    requires !Before(e, r)
    ensures Before(r, e)
  {
  }

  /** What r comes before, comes before no range that r meets. */
  lemma BeforeBoth(r: Region, e: Region, e': Region)
    requires e.Regular() && Before(r, e) && Before(e, e')
    ensures Before(r, e')
  {
  }

  /** Registration is refused exactly when the range meets an existing one, and never when its end
      wraps around. */
  lemma BusyExactly(chain: seq<Region>, r: Region, bucket: nat)
    requires GoodChain(chain, bucket) && FitsMajor(r.baseminor, r.minorct)
    ensures
      Busy(chain, r)
      <==> r.baseminor + r.minorct < TWO32 && exists j :: 0 <= j < |chain| && chain[j].Meets(r)
  {
    var p := Slot(chain, r);
    SlotSplits(chain, r);
    if r.baseminor + r.minorct >= TWO32 {
      if p < |chain| {
        WrappedBefore(chain[p], r);
      }
    } else if Busy(chain, r) {
      MeetsExactly(chain[p], r);
    } else {
      forall j | 0 <= j < |chain| ensures !chain[j].Meets(r) {
        MeetsExactly(chain[j], r);
        if j > p {
          BeforeBoth(r, chain[p], chain[j]);
        }
      }
    }
  }

  /** A range that passed the size check and the scan leaves the chain in order exactly when its end
      does not wrap around. */
  lemma InsertKeepsGood(chain: seq<Region>, r: Region, bucket: nat)
    requires GoodChain(chain, bucket) && 1 <= r.major < MAJOR_MAX && r.major % HASH_SIZE == bucket
    requires FitsMajor(r.baseminor, r.minorct) && !Busy(chain, r)
    ensures GoodChain(Insert(chain, r), bucket) <==> r.baseminor + r.minorct < TWO32
  {
    var p := Slot(chain, r);
    assert Insert(chain, r)[p] == r;
    InsertSorted(chain, r, p);
    if r.baseminor + r.minorct < TWO32 {
      forall j | 0 <= j <= |chain|
        ensures Insert(chain, r)[j].Regular() && Insert(chain, r)[j].major % HASH_SIZE == bucket
      {
        InsertAt(chain, r, j);
      }
    }
  }

  lemma InsertSorted(chain: seq<Region>, r: Region, p: nat)
    requires Sorted(chain) && (forall j :: 0 <= j < |chain| ==> chain[j].Regular())
    requires p == Slot(chain, r) && !Busy(chain, r)
    ensures Sorted(Insert(chain, r))
  {
    SlotSplits(chain, r);
    forall k | p <= k < |chain| ensures Before(r, chain[k]) {
      if k > p {
        BeforeBoth(r, chain[p], chain[k]);
      }
    }
    var c := Insert(chain, r);
    forall j, k | 0 <= j < k < |c| ensures Before(c[j], c[k]) {
      InsertAt(chain, r, j);
      InsertAt(chain, r, k);
    }
  }

  lemma InsertAt(chain: seq<Region>, r: Region, j: nat)
    requires j <= |chain|
    ensures
      var p := Slot(chain, r);
      Insert(chain, r)[j] == if j < p then chain[j] else if j == p then r else chain[j - 1]
  {
  }

  /** Only an empty region can be passed by a scan for an equal one. */
  lemma PassedIsEqual(chain: seq<Region>, r: Region, bucket: nat)
    requires GoodChain(chain, bucket)
    requires chain != [] && chain[0] == r
    ensures forall j :: 0 <= j < Slot(chain, r) ==> chain[j] == r
  {
    SlotSplits(chain, r);
    forall j | 0 < j < Slot(chain, r) ensures chain[j] == r {
      assert Before(chain[0], chain[j]) && Before(chain[j], r);
    }
  }

  /** Taking out what was just inserted restores the chain, with its order. */
  lemma {:induction false} RemoveUndoesInsert(chain: seq<Region>, r: Region, bucket: nat)
    requires GoodChain(chain, bucket)
    ensures Remove(Insert(chain, r), r) == chain
  {
    var c := Insert(chain, r);
    if Slot(chain, r) == 0 {
      assert c[1..] == chain;
    } else if chain[0] == r {
      PassedIsEqual(chain, r, bucket);
      assert c[1..] == chain;
    } else {
      RemoveUndoesInsert(chain[1..], r, bucket);
      assert c[0] == chain[0];
      InsertRest(chain, r);
    }
  }

  lemma InsertRest(chain: seq<Region>, r: Region)
    requires Slot(chain, r) > 0
    ensures Insert(chain, r)[1..] == Insert(chain[1..], r)
  {
  }

  lemma {:induction false} RemoveAt(chain: seq<Region>, r: Region, p: nat)
    requires p < |chain| && chain[p] == r
    requires forall j :: 0 <= j < p ==> chain[j] != r
    ensures Remove(chain, r) == chain[..p] + chain[p + 1..]
  {
    if p > 0 {
      RemoveAt(chain[1..], r, p - 1);
      assert chain[..p] == [chain[0]] + chain[1..][..p - 1];
    }
  }

  lemma {:induction false} RemoveAbsent(chain: seq<Region>, r: Region)
    requires r !in chain
    ensures Remove(chain, r) == chain
  {
    if chain != [] {
      RemoveAbsent(chain[1..], r);
    }
  }

  /** The order in which two entries are taken out does not matter. */
  lemma {:induction false} RemovesCommute(chain: seq<Region>, a: Region, b: Region)
    ensures Remove(Remove(chain, a), b) == Remove(Remove(chain, b), a)
  {
    if chain != [] {
      RemovesCommute(chain[1..], a, b);
      if chain[0] != a && chain[0] != b {
        assert ([chain[0]] + Remove(chain[1..], a))[1..] == Remove(chain[1..], a);
        assert ([chain[0]] + Remove(chain[1..], b))[1..] == Remove(chain[1..], b);
      }
    }
  }

  lemma InsertOwns(chain: seq<Region>, r: Region, major: nat, minor: nat)
    ensures OwnedIn(Insert(chain, r), major, minor) <==> OwnedIn(chain, major, minor) || r.Owns(major, minor)
  {
    var p, c := Slot(chain, r), Insert(chain, r);
    assert c[p] == r;
    if j :| 0 <= j < |chain| && chain[j].Owns(major, minor) {
      assert c[if j < p then j else j + 1] == chain[j];
    }
    if j :| 0 <= j < |c| && c[j].Owns(major, minor) && !r.Owns(major, minor) {
      assert c[j] == chain[if j < p then j else j - 1];
    }
  }

  /** A device number has at most one owner. */
  lemma OwnerIsUnique(chain: seq<Region>, bucket: nat, j: nat, major: nat, minor: nat)
    requires GoodChain(chain, bucket)
    requires j < |chain| && chain[j].Owns(major, minor)
    ensures forall k :: 0 <= k < |chain| && k != j ==> !chain[k].Owns(major, minor)
  {
    forall k | 0 <= k < |chain| && k != j ensures !chain[k].Owns(major, minor) {
      if k < j {
        assert Before(chain[k], chain[j]);
      } else {
        assert Before(chain[j], chain[k]);
      }
    }
  }

  /** The test of find_chrdev, with its 32-bit sum. */
  lemma OwnsTest(r: Region, major: u32, minor: u32)
    requires r.baseminor + r.minorct < TWO32
    ensures r.Owns(major, minor) <==> r.Covers(major, minor)
  {
  }

  /** Every number of a region is found by that test, in this region and in no other. */
  ghost predicate Findable(chain: seq<Region>) {
    forall j, major: u32, minor: u32 :: 0 <= j < |chain| && chain[j].Owns(major, minor) ==>
      && chain[j].Covers(major, minor)
      && forall k :: 0 <= k < |chain| && k != j ==> !chain[k].Owns(major, minor)
  }

  ghost predicate AllFindable(t: Table) {
    forall i :: 0 <= i < |t| ==> Findable(t[i])
  }

  lemma GoodIsFindable(t: Table)
    requires Good(t)
    ensures AllFindable(t)
  {
    forall i | 0 <= i < |t| ensures Findable(t[i]) {
      assert GoodChain(t[i], i);
      forall j, major: u32, minor: u32 | 0 <= j < |t[i]| && t[i][j].Owns(major, minor)
        ensures t[i][j].Covers(major, minor) && forall k :: 0 <= k < |t[i]| && k != j ==> !t[i][k].Owns(major, minor)
      {
        OwnsTest(t[i][j], major, minor);
        OwnerIsUnique(t[i], i, j, major, minor);
      }
    }
  }

  // ---------- single operations on the table

  /** For base minors up to 2^20 the size check is exact; above them it accepts regions that are
      not in range at all. */
  lemma SizeCheckExact(baseminor: u32, minorct: u32)
    requires FitsMajor(baseminor, minorct)
    ensures baseminor + minorct <= MINORS <==> baseminor <= MINORS
  {
  }

  lemma SizeCheckTooLoose()
    ensures FitsMajor(0xFFFF_FFFF, 2) && Region(1, 0xFFFF_FFFF, 2).End() == 1
  {
  }

  lemma {:induction false} DynamicIsLargest(t: Table, i: nat)
    requires |t| == HASH_SIZE
    ensures
      match FindDynamic(t, i)
      case Some(m) => DYN_EXT_END <= m <= i && !InUse(t, m) && forall k :: m < k <= i ==> InUse(t, k)
      case None => forall k :: DYN_EXT_END <= k <= i ==> InUse(t, k)
  {
    if i >= DYN_EXT_END && InUse(t, i) {
      DynamicIsLargest(t, i - 1);
    }
  }

  /** A major is in use exactly when some region of the table has it. */
  lemma InUseExactly(t: Table, major: nat)
    requires Good(t)
    ensures InUse(t, major) <==> exists i, j :: 0 <= i < |t| && 0 <= j < |t[i]| && t[i][j].major == major
  {
    forall i, j | 0 <= i < |t| && 0 <= j < |t[i]| && t[i][j].major == major ensures i == major % HASH_SIZE {
      assert GoodChain(t[i], i);
    }
  }

  /** With major 0 the largest free major of 384..511 is taken, and then nothing can collide;
      the table is full only when all of these majors are in use. */
  lemma DynamicRegistration(t: Table, baseminor: u32, minorct: u32)
    requires Good(t) && FitsMajor(baseminor, minorct)
    ensures
      match Register(t, 0, baseminor, minorct, true).1
      case Registered(r) =>
        && 384 <= r.major <= 511 && r == Region(r.major, baseminor, minorct)
        && !InUse(t, r.major) && (forall k :: r.major < k <= 511 ==> InUse(t, k))
      case Failed(e) => e == EBUSY && forall k :: 384 <= k <= 511 ==> InUse(t, k)
  {
    DynamicIsLargest(t, DYN_EXT_START);
    var m := FindDynamic(t, DYN_EXT_START);
    if m.Some? {
      BusyExactly(t[m.value % HASH_SIZE], Region(m.value, baseminor, minorct), m.value % HASH_SIZE);
    }
  }

  /** With a given major registration fails for the first of four reasons that applies.  Above
      2^20 the size check compares with a limit that has wrapped around, and where the end of the
      range has done so, too, no collision is seen. */
  lemma RegisterExactly(t: Table, major: u32, baseminor: u32, minorct: u32, memory: bool)
    requires Good(t) && major > 0
    ensures
      var r := Region(major, baseminor, minorct);
      var limit := if baseminor <= MINORS then MINORS else TWO32 + MINORS;
      var chain := t[major % HASH_SIZE];
      Register(t, major, baseminor, minorct, memory).1
      == if major >= MAJOR_MAX || baseminor + minorct > limit then Failed(EINVAL)
         else if !memory then Failed(ENOMEM)
         else if baseminor + minorct < TWO32 && exists j :: 0 <= j < |chain| && chain[j].Meets(r) then Failed(EBUSY)
         else Registered(r)
  {
    if major < MAJOR_MAX && FitsMajor(baseminor, minorct) {
      BusyExactly(t[major % HASH_SIZE], Region(major, baseminor, minorct), major % HASH_SIZE);
    }
  }

  /** What registration does to the table.  It stays good exactly when the end of the range does
      not wrap around. */
  lemma RegisterEffect(t: Table, major: u32, baseminor: u32, minorct: u32, memory: bool)
    requires Good(t)
    ensures
      var (t', o) := Register(t, major, baseminor, minorct, memory);
      match o
      case Failed(_) => t' == t
      case Registered(r) =>
        && 1 <= r.major < MAJOR_MAX && r == Region(r.major, baseminor, minorct) && (major > 0 ==> r.major == major)
        && t' == t[r.major % HASH_SIZE := Insert(t[r.major % HASH_SIZE], r)]
        && Unregister(t', r) == t
        && (Good(t') <==> baseminor + minorct < TWO32)
        && (r.InRange() <==> baseminor <= MINORS)
  {
    DynamicIsLargest(t, DYN_EXT_START);
    var (t', o) := Register(t, major, baseminor, minorct, memory);
    if o.Registered? {
      var i := o.region.major % HASH_SIZE;
      InsertKeepsGood(t[i], o.region, i);
      RemoveUndoesInsert(t[i], o.region, i);
      assert Unregister(t', o.region) == t;
      SizeCheckExact(baseminor, minorct);
    }
  }

  /** After a successful registration every number of every region is found where it belongs exactly
      when the end of the new region does not wrap around. */
  lemma FindableExactly(t: Table, major: u32, baseminor: u32, minorct: u32, memory: bool)
    requires Good(t) && Register(t, major, baseminor, minorct, memory).1.Registered?
    ensures AllFindable(Register(t, major, baseminor, minorct, memory).0) <==> baseminor + minorct < TWO32
  {
    RegisterEffect(t, major, baseminor, minorct, memory);
    var (t', o) := Register(t, major, baseminor, minorct, memory);
    if baseminor + minorct < TWO32 {
      GoodIsFindable(t');
    } else {
      var i := o.region.major % HASH_SIZE;
      var p := Slot(t[i], o.region);
      assert t'[i][p] == o.region && o.region.Owns(o.region.major, baseminor);
      assert !o.region.Covers(o.region.major, baseminor);
      assert !Findable(t'[i]);
    }
  }

  /** Every region has the minors of device numbers. */
  predicate AllInRange(t: Table) {
    forall i, j :: 0 <= i < |t| && 0 <= j < |t[i]| ==> t[i][j].InRange()
  }

  /** That is kept exactly by base minors up to 2^20. */
  lemma InRangeExactly(t: Table, major: u32, baseminor: u32, minorct: u32, memory: bool)
    requires Good(t) && AllInRange(t) && Register(t, major, baseminor, minorct, memory).1.Registered?
    ensures AllInRange(Register(t, major, baseminor, minorct, memory).0) <==> baseminor <= MINORS
  {
    RegisterEffect(t, major, baseminor, minorct, memory);
    var (t', o) := Register(t, major, baseminor, minorct, memory);
    var i := o.region.major % HASH_SIZE;
    assert t'[i][Slot(t[i], o.region)] == o.region;
    forall j | 0 <= j < |t'[i]| ensures t'[i][j] == o.region || t'[i][j].InRange() {
      InsertAt(t[i], o.region, j);
    }
  }

  /** Between 2^20 and the wrap-around the chains stay in order, but the minors are not those of
      device numbers. */
  lemma AboveRange()
    ensures
      var (t, o) := Register(EMPTY, 1, 0x20_0000, 8, true);
      o.Registered? && Good(t) && AllFindable(t) && !AllInRange(t)
  {
    var (t, o) := Register(EMPTY, 1, 0x20_0000, 8, true);
    RegisterEffect(EMPTY, 1, 0x20_0000, 8, true);
    FindableExactly(EMPTY, 1, 0x20_0000, 8, true);
    InRangeExactly(EMPTY, 1, 0x20_0000, 8, true);
  }

  /** The scan of a chain for a region that it already holds at the place of its insertion. */
  lemma {:induction false} SlotAgain(chain: seq<Region>, r: Region)
    ensures Slot(Insert(chain, r), r) == Slot(chain, r) + if Before(r, r) then 1 else 0
  {
    var c := Insert(chain, r);
    if Slot(chain, r) == 0 {
      assert c[1..] == chain;
    } else {
      SlotAgain(chain[1..], r);
      InsertRest(chain, r);
    }
  }

  /** A region that is registered may be registered a second time exactly when it is empty or
      its 32-bit end has wrapped around. */
  lemma TwiceExactly(t: Table, major: u32, baseminor: u32, minorct: u32)
    requires Good(t) && major > 0
    requires Register(t, major, baseminor, minorct, true).1.Registered?
    ensures
      var t1 := Register(t, major, baseminor, minorct, true).0;
      && |t1| == HASH_SIZE
      && (Register(t1, major, baseminor, minorct, true).1.Registered?
          <==> minorct == 0 || baseminor + minorct >= TWO32)
  {
    SlotAgain(t[major % HASH_SIZE], Region(major, baseminor, minorct));
  }

  /** In an empty table the number 0xFFFF_FFFF of major 1 is given away twice, with no EBUSY, and
      its two owners are neighbours in one chain. */
  lemma TwoOwners()
    ensures
      var r := Region(1, 0xFFFF_FFFF, 2);
      var (t1, o1) := Register(EMPTY, 1, 0xFFFF_FFFF, 2, true);
      |t1| == HASH_SIZE && o1 == Registered(r) && Register(t1, 1, 0xFFFF_FFFF, 2, true) == (EMPTY[1 := [r, r]], o1)
  {
    var r := Region(1, 0xFFFF_FFFF, 2);
    assert Insert([], r) == [r];
    SlotAgain([], r);
    assert Insert([r], r) == [r, r];
    var t1 := Register(EMPTY, 1, 0xFFFF_FFFF, 2, true).0;
    assert t1 == EMPTY[1 := [r]];
    assert t1[1 := [r, r]] == EMPTY[1 := [r, r]];
  }

  lemma RegisterOwns(t: Table, r: Region, major: nat, minor: nat)
    requires |t| == HASH_SIZE
    ensures
      var i := r.major % HASH_SIZE;
      Owned(t[i := Insert(t[i], r)], major, minor) <==> Owned(t, major, minor) || r.Owns(major, minor)
  {
    InsertOwns(t[r.major % HASH_SIZE], r, major, minor);
  }

  lemma {:induction false} RemoveKeepsGood(chain: seq<Region>, r: Region, bucket: nat)
    requires GoodChain(chain, bucket)
    ensures GoodChain(Remove(chain, r), bucket)
    ensures forall x :: x in Remove(chain, r) ==> x in chain
  {
    if chain != [] && chain[0] != r {
      RemoveKeepsGood(chain[1..], r, bucket);
      var rest := Remove(chain[1..], r);
      forall k | 0 <= k < |rest| ensures Before(chain[0], rest[k]) {
        assert rest[k] in chain[1..];
      }
    }
  }

  lemma UnregisterKeepsGood(t: Table, r: Region)
    requires Good(t)
    ensures Good(Unregister(t, r))
  {
    RemoveKeepsGood(t[r.major % HASH_SIZE], r, r.major % HASH_SIZE);
  }

  // ---------- every run

  datatype Op =
    | Add(major: u32, baseminor: u32, minorct: u32, memory: bool)
    | Drop(region: Region)

  function Apply(t: Table, op: Op): (t': Table)
    requires |t| == HASH_SIZE
    ensures |t'| == HASH_SIZE
  {
    match op
    case Add(major, baseminor, minorct, memory) => Register(t, major, baseminor, minorct, memory).0
    case Drop(region) => Unregister(t, region)
  }

  const EMPTY: Table := seq(HASH_SIZE, i => [])

  function Run(t: Table, ops: seq<Op>): Table
    requires |t| == HASH_SIZE
    decreases |ops|
  {
    if ops == [] then t else Run(Apply(t, ops[0]), ops[1..])
  }

  /** No registration of the run succeeds with an end above the limit. */
  predicate Proper(t: Table, ops: seq<Op>, limit: nat)
    requires |t| == HASH_SIZE
    decreases |ops|
  {
    ops == [] || (ProperOp(t, ops[0], limit) && Proper(Apply(t, ops[0]), ops[1..], limit))
  }

  predicate ProperOp(t: Table, op: Op, limit: nat)
    requires |t| == HASH_SIZE
  {
    op.Add? && Register(t, op.major, op.baseminor, op.minorct, op.memory).1.Registered? ==>
      op.baseminor + op.minorct <= limit
  }

  /** The property holds at every moment of a run. */
  ghost predicate Always(property: Table -> bool, t: Table, ops: seq<Op>)
    requires |t| == HASH_SIZE
    decreases |ops|
  {
    property(t) && (ops == [] || Always(property, Apply(t, ops[0]), ops[1..]))
  }

  ghost function Goodness(): Table -> bool {
    t => Good(t)
  }

  ghost function Findability(): Table -> bool {
    t => AllFindable(t)
  }

  ghost function Range(): Table -> bool {
    t => AllInRange(t)
  }

  lemma StepKeepsGood(t: Table, op: Op)
    requires Good(t)
    ensures Good(Apply(t, op)) <==> ProperOp(t, op, TWO32 - 1)
    ensures AllFindable(Apply(t, op)) <==> ProperOp(t, op, TWO32 - 1)
  {
    match op {
      case Add(major, baseminor, minorct, memory) =>
        RegisterEffect(t, major, baseminor, minorct, memory);
        GoodIsFindable(t);
        if Register(t, major, baseminor, minorct, memory).1.Registered? {
          FindableExactly(t, major, baseminor, minorct, memory);
        }
      case Drop(region) =>
        UnregisterKeepsGood(t, region);
        GoodIsFindable(Unregister(t, region));
    }
  }

  /** The chains stay sorted and free of overlaps over a run of registrations and removals, and every
      number is found where it belongs, exactly when no end of a registered region wraps around. */
  lemma {:induction false} RunKeepsGood(t: Table, ops: seq<Op>)
    requires Good(t)
    ensures Always(Goodness(), t, ops) <==> Proper(t, ops, TWO32 - 1)
    ensures Always(Findability(), t, ops) <==> Proper(t, ops, TWO32 - 1)
    ensures Proper(t, ops, TWO32 - 1) ==> Good(Run(t, ops))
    decreases |ops|
  {
    GoodIsFindable(t);
    if ops != [] {
      StepKeepsGood(t, ops[0]);
      if ProperOp(t, ops[0], TWO32 - 1) {
        RunKeepsGood(Apply(t, ops[0]), ops[1..]);
      }
    }
  }

  lemma {:induction false} RemoveKeepsRange(chain: seq<Region>, r: Region)
    ensures forall x :: x in Remove(chain, r) ==> x in chain
  {
    if chain != [] {
      RemoveKeepsRange(chain[1..], r);
    }
  }

  lemma StepKeepsRange(t: Table, op: Op)
    requires Good(t) && AllInRange(t)
    ensures AllInRange(Apply(t, op)) <==> ProperOp(t, op, MINORS)
    ensures ProperOp(t, op, MINORS) ==> Good(Apply(t, op))
  {
    StepKeepsGood(t, op);
    match op {
      case Add(major, baseminor, minorct, memory) =>
        RegisterEffect(t, major, baseminor, minorct, memory);
        if Register(t, major, baseminor, minorct, memory).1.Registered? {
          InRangeExactly(t, major, baseminor, minorct, memory);
        }
      case Drop(region) =>
        var i := region.major % HASH_SIZE;
        RemoveKeepsRange(t[i], region);
        var c := Remove(t[i], region);
        forall j | 0 <= j < |c| ensures c[j].InRange() {
          assert c[j] in t[i];
        }
    }
  }

  /** The regions stay in the range of device numbers over a run exactly when none of them ends above
      2^20. */
  lemma {:induction false} RunKeepsRange(t: Table, ops: seq<Op>)
    requires Good(t) && AllInRange(t)
    ensures Always(Range(), t, ops) <==> Proper(t, ops, MINORS)
    decreases |ops|
  {
    if ops != [] {
      StepKeepsRange(t, ops[0]);
      if ProperOp(t, ops[0], MINORS) {
        RunKeepsRange(Apply(t, ops[0]), ops[1..]);
      }
    }
  }
}
