/** block/partition.c: the four-entry table of a master boot record. */
module Partition {
  import opened Machine

  /** struct mbr_partition */
  datatype Entry = Entry(
    bootInd: byte, startHead: byte, startSector: byte, startCyl: byte,
    sysInd: byte, endHead: byte, endSector: byte, endCyl: byte,
    startLba: u32, nrSectors: u32)
  {
    /** check_empty_MBR_Table: every byte is zero. */
    predicate Empty() {
      && bootInd == startHead == startSector == startCyl == 0
      && sysInd == endHead == endSector == endCyl == 0
      && startLba == nrSectors == 0
    }

    function End(): int {
      startLba + nrSectors
    }
  }

  const SLOTS := 4
  const INVALID: u32 := 0xFFFF_FFFF
  const EMPTY := Entry(0, 0, 0, 0, 0, 0, 0, 0, 0, 0)

  type Table = t: seq<Entry> | |t| == SLOTS witness seq(SLOTS, _ => EMPTY)

  // ---------- tidying up

  function IfUsed(e: Entry): (us: seq<Entry>)
    ensures |us| <= 1
  {
    if e.Empty() then [] else [e]
  }

  /** The entries that are not empty, in their order. */
  function Used(t: seq<Entry>): (us: seq<Entry>)
    ensures |us| <= |t|
  {
    if t == [] then [] else IfUsed(t[0]) + Used(t[1..])
  }

  /** The used entries in order, then empty ones. */
  function Layout(us: seq<Entry>): Table
    requires |us| <= SLOTS
  {
    us + seq(SLOTS - |us|, _ => EMPTY)
  }

  predicate Compact(t: seq<Entry>) {
    forall i, j :: 0 <= i < j < |t| && t[i].Empty() ==> t[j].Empty()
  }

  lemma {:induction false} UsedMoves(t: seq<Entry>, k: nat)
    requires k + 1 < |t| && t[k].Empty()
    ensures Used(t[k := t[k + 1]][k + 1 := EMPTY]) == Used(t)
  {
    var u := t[k := t[k + 1]][k + 1 := EMPTY];
    if k > 0 {
      UsedMoves(t[1..], k - 1);
      assert u[1..] == t[1..][k - 1 := t[k + 1]][k := EMPTY];
    } else {
      assert u[1..][1..] == t[1..][1..];
      assert Used(u[1..]) == Used(u[2..]) && Used(t[1..]) == IfUsed(t[1]) + Used(t[2..]);
    }
  }

  lemma {:induction false} CompactIsUsed(t: seq<Entry>)
    requires Compact(t)
    ensures t == Used(t) + seq(|t| - |Used(t)|, _ => EMPTY)
  {
    if t != [] {
      CompactIsUsed(t[1..]);
      if t[0].Empty() {
        assert forall j :: 0 < j < |t| ==> t[0].Empty() && t[j].Empty();
        assert t == seq(|t|, _ => EMPTY);
        AllEmpty(|t|);
      }
    }
  }

  lemma {:induction false} AllEmpty(n: nat)
    ensures Used(seq(n, _ => EMPTY)) == []
  {
    if n > 0 {
      assert seq(n, _ => EMPTY)[1..] == seq(n - 1, _ => EMPTY);
      AllEmpty(n - 1);
    }
  }

  /** From slot m on, no used slot has an empty one before it. */
  ghost predicate Settled(used: seq<bool>, m: int) {
    forall x, i :: m <= i < |used| && 0 <= x < i && used[i] ==> used[x]
  }

  /** The slot k settles everything before it. */
  ghost predicate Carried(used: seq<bool>, k: int) {
    forall x :: 0 <= x < k < |used| && used[k] ==> used[x]
  }

  /** Slot by slot, which are used. */
  ghost function InUse(t: seq<Entry>): (s: seq<bool>)
    ensures |s| == |t| && forall i :: 0 <= i < |t| ==> s[i] == !t[i].Empty()
  {
    seq(|t|, i requires 0 <= i < |t| => !t[i].Empty())
  }

  /** What one comparison of the inner loop does to the slots. */
  function Exchanged(used: seq<bool>, k: nat): (s: seq<bool>)
    requires k + 1 < |used|
    ensures |s| == |used|
  {
    if !used[k] && used[k + 1] then used[k := true][k + 1 := false] else used
  }

  lemma ExchangeSettles(used: seq<bool>, j: nat, k: nat)
    requires |used| == SLOTS && j < 3 && k < 3
    requires Settled(used, SLOTS - j) && Carried(used, k) && (k >= 3 - j ==> Carried(used, 3 - j))
    ensures
      var s := Exchanged(used, k);
      Settled(s, SLOTS - j) && Carried(s, k + 1) && (k + 1 >= 3 - j ==> Carried(s, 3 - j))
  {
  }

  /** One step of the inner loop. */
  method MoveUp(t: array<Entry>, state: array<bool>, k: nat)
    requires t.Length == state.Length == SLOTS && k < 3 && state[..] == InUse(t[..])
    modifies t, state
    ensures state[..] == InUse(t[..]) == Exchanged(old(state[..]), k)
    ensures Used(t[..]) == Used(old(t[..]))
  {
    if !state[k] && state[k + 1] {
      UsedMoves(t[..], k);
      t[k], t[k + 1] := t[k + 1], EMPTY;
      state[k], state[k + 1] := true, false;
    }
  }

  /** One round of the outer loop of tidy_up_MBR_Table. */
  method Sweep(t: array<Entry>, state: array<bool>, ghost j: nat)
    requires t.Length == state.Length == SLOTS && j < 3
    requires state[..] == InUse(t[..]) && Settled(state[..], SLOTS - j)
    modifies t, state
    ensures state[..] == InUse(t[..]) && Settled(state[..], SLOTS - j - 1)
    ensures Used(t[..]) == Used(old(t[..]))
  {
    var k := 0;
    while k < 3
      invariant 0 <= k <= 3
      invariant state[..] == InUse(t[..]) && Settled(state[..], SLOTS - j)
      invariant Carried(state[..], k) && (k >= 3 - j ==> Carried(state[..], 3 - j))
      invariant Used(t[..]) == Used(old(t[..]))
    {
      ExchangeSettles(state[..], j, k);
      MoveUp(t, state, k);
      k := k + 1;
    }
  }

  /** tidy_up_MBR_Table */
  method TidyUp(t: array<Entry>)
    requires t.Length == SLOTS
    modifies t
    ensures t[..] == Layout(Used(old(t[..])))
  {
    var state := new bool[SLOTS](i requires 0 <= i < SLOTS reads t => !t[i].Empty());
    var j := 0;
    while j < 3
      invariant 0 <= j <= 3
      invariant state[..] == InUse(t[..]) && Settled(state[..], SLOTS - j)
      invariant Used(t[..]) == Used(old(t[..]))
    {
      Sweep(t, state, j);
      j := j + 1;
    }
    SettledIsCompact(t[..]);
    CompactIsUsed(t[..]);
  }

  lemma SettledIsCompact(t: seq<Entry>)
    requires Settled(InUse(t), 1)
    ensures Compact(t)
  {
    forall i, j | 0 <= i < j < |t| && !t[j].Empty() ensures !t[i].Empty() {
      assert InUse(t)[j];
    }
  }

  // ---------- the partitions of a disk

  /** Used entries in ascending order, aligned, not empty, disjoint and inside the usable sectors. */
  ghost predicate Good(us: seq<Entry>, sectors: u32) {
    && |us| <= SLOTS
    && (forall i :: 0 <= i < |us| ==> Fits(us[i], sectors))
    && (forall i, j :: 0 <= i < j < |us| ==> us[i].End() <= us[j].startLba)
  }

  predicate Fits(e: Entry, sectors: u32) {
    e.startLba % 8 == 0 && e.nrSectors > 0 && 2048 <= e.startLba && e.End() <= sectors - 34
  }

  function AlignUp(x: int): int {
    if x % 8 > 0 then x - x % 8 + 8 else x
  }

  /** Where the next partition starts. */
  function NextStart(us: seq<Entry>): int {
    if us == [] then 2048 else AlignUp(us[|us| - 1].End())
  }

  /** The sectors it gets of those asked for; the sum wraps in 32 bits. */
  function Granted(start: int, size: int, sectors: int): int {
    if sectors - 34 <= U32(start + size) then sectors - 34 - start else size
  }

  /** MBR_partition_table_create */
  function Made(start: u32, size: u32, kind: byte): Entry {
    Entry(0, 0x20, 0x21, 0, kind, 0xFE, 0x3F, 1, start, size)
  }

  /** An entry for these sectors, of this type, not bootable, with the head, sector and cylinder
      numbers that every created partition gets. */
  predicate Describes(e: Entry, kind: byte, start: int, size: int) {
    && e.bootInd == 0 && e.sysInd == kind && e.startLba == start && e.nrSectors == size
    && e.startHead == 0x20 && e.startSector == 0x21 && e.startCyl == 0
    && e.endHead == 0xFE && e.endSector == 0x3F && e.endCyl == 1
  }

  ghost predicate CanCreate(us: seq<Entry>, sectors: u32, size: u32) {
    && |us| < SLOTS && NextStart(us) <= sectors - 34
    && Granted(NextStart(us), size / 8 * 8, sectors) > 0
  }

  /** The created entry. */
  ghost function Created(us: seq<Entry>, sectors: u32, size: u32, kind: byte): (e: Entry)
    requires Good(us, sectors) && CanCreate(us, sectors, size)
  {
    GrantedBounds(us, sectors, size);
    Made(NextStart(us), Granted(NextStart(us), size / 8 * 8, sectors), kind)
  }

  lemma GrantedBounds(us: seq<Entry>, sectors: u32, size: u32)
    requires Good(us, sectors) && CanCreate(us, sectors, size)
    ensures 2048 <= NextStart(us) && 0 < Granted(NextStart(us), size / 8 * 8, sectors) < TWO32
  {
    if us != [] {
      assert Fits(us[|us| - 1], sectors);
    }
  }

  /** The new entry keeps the table in order exactly when the end that was asked for is below 2^32;
      beyond that the comparison wraps and the partition reaches past the disk. */
  lemma CreateExactly(us: seq<Entry>, sectors: u32, size: u32, kind: byte)
    requires Good(us, sectors) && CanCreate(us, sectors, size)
    ensures
      Good(us + [Created(us, sectors, size, kind)], sectors) <==> NextStart(us) + size / 8 * 8 < TWO32
  {
    var e := Created(us, sectors, size, kind);
    var more := us + [e];
    GrantedBounds(us, sectors, size);
    assert more[|us|] == e;
    if us != [] {
      assert Fits(us[|us| - 1], sectors);
    }
    if NextStart(us) + size / 8 * 8 < TWO32 {
      forall i, j | 0 <= i < j < |more| ensures more[i].End() <= more[j].startLba {
        if j == |us| && i < |us| - 1 {
          assert us[i].End() <= us[|us| - 1].startLba;
        }
      }
    } else {
      assert !Fits(e, sectors);
    }
  }

  /** Below that bound there is room exactly when a slot and eight sectors' worth of request and one
      sector are left; what is granted is the request rounded down, or all that is left. */
  lemma RoomExactly(us: seq<Entry>, sectors: u32, size: u32, kind: byte)
    requires Good(us, sectors) && NextStart(us) + size / 8 * 8 < TWO32
    ensures CanCreate(us, sectors, size) <==> |us| < SLOTS && NextStart(us) < sectors - 34 && size >= 8
    ensures CanCreate(us, sectors, size) ==>
              Created(us, sectors, size, kind).nrSectors == Min(size / 8 * 8, sectors - 34 - NextStart(us))
  {
    if us != [] {
      assert Fits(us[|us| - 1], sectors);
    }
    if CanCreate(us, sectors, size) {
      GrantedBounds(us, sectors, size);
    }
  }

  lemma DeleteKeepsGood(us: seq<Entry>, sectors: u32, k: nat)
    requires Good(us, sectors) && k < |us|
    ensures Good(us[..k] + us[k + 1..], sectors)
  {
    var rest := us[..k] + us[k + 1..];
    forall i | 0 <= i < |rest| ensures rest[i] == us[if i < k then i else i + 1] {
    }
  }

  // ---------- the operations on any four entries

  function FirstEmpty(t: seq<Entry>): (i: nat)
    ensures i <= |t| && (i < |t| ==> t[i].Empty())
  {
    if t == [] || t[0].Empty() then 0 else 1 + FirstEmpty(t[1..])
  }

  /** get_mbr_partition_start_address */
  function StartOf(t: Table, number: int): u32 {
    if 0 <= number < SLOTS && !t[number].Empty() then t[number].startLba else INVALID
  }

  /** Lines 376-403: where a new partition in this slot starts.  An entry that starts at the
      number reserved for invalid ones counts as none. */
  function StartFor(t: Table, slot: nat, sectors: u32): Option<u32>
    requires slot < SLOTS
  {
    var last := StartOf(t, slot - 1);
    if last == INVALID then if sectors < 2048 then None else Some(2048)
    else
      var x := U32(last + t[slot - 1].nrSectors);
      Some(if x % 8 > 0 then U32(x - x % 8 + 8) else x)
  }

  /** Lines 405-412: where it has to end at the latest. */
  function EndFor(t: Table, slot: nat, sectors: u32): u32 {
    if StartOf(t, slot + 1) == INVALID then U32(sectors - 33 - 1) else StartOf(t, slot + 1)
  }

  /** Lines 413-425: the size is cut to what lies before the end. */
  function Cut(start: u32, end: u32, asked: u32): (size: Option<u32>) {
    if end < start then None
    else
      var size := if end <= U32(start + asked) then end - start else asked;
      if size > 0 then Some(size) else None
  }

  /** The table after mbr_partition_table_format, if that finds room. */
  function Formatted(t: Table, sectors: u32, asked: u32, kind: byte): Option<Table> {
    var slot := FirstEmpty(t);
    if slot == SLOTS || StartFor(t, slot, sectors).None? then None
    else
      var start := StartFor(t, slot, sectors).value;
      match Cut(start, EndFor(t, slot, sectors), asked / 8 * 8)
      case None => None
      case Some(size) => Some(Layout(Used(t[slot := Made(start, size, kind)])))
  }

  /** The table after mbr_table_delete, if there is such an entry. */
  function Deleted(t: Table, number: int): Option<Table> {
    if 0 <= number < SLOTS && !t[number].Empty() then Some(Layout(Used(t[number := EMPTY]))) else None
  }

  lemma UsedFirst(t: seq<Entry>, e: Entry, rest: seq<Entry>)
    requires t == [e] + rest
    ensures Used(t) == IfUsed(e) + Used(rest)
  {
    assert t[1..] == rest;
  }

  lemma {:induction false} UsedConcat(a: seq<Entry>, b: seq<Entry>)
    ensures Used(a + b) == Used(a) + Used(b)
  {
    if a == [] {
      assert a + b == b;
    } else {
      UsedConcat(a[1..], b);
      assert a + b == [a[0]] + (a[1..] + b);
      UsedFirst(a + b, a[0], a[1..] + b);
      UsedFirst(a, a[0], a[1..]);
      Associate(IfUsed(a[0]), Used(a[1..]), Used(b));
    }
  }

  lemma Associate(a: seq<Entry>, b: seq<Entry>, c: seq<Entry>)
    ensures a + (b + c) == a + b + c
  {
  }

  /** Whatever the table, a deletion takes out this entry and keeps the others in their order. */
  lemma DeletedExactly(t: Table, number: nat)
    requires number < SLOTS && !t[number].Empty()
    ensures Deleted(t, number) == Some(Layout(Used(t[..number]) + Used(t[number + 1..])))
    ensures Used(t) == Used(t[..number]) + [t[number]] + Used(t[number + 1..])
  {
    UsedAround(t, t[..number], t[number + 1..], number);
    UsedCleared(t, t[..number], t[number + 1..], number);
  }

  lemma UsedCleared(t: seq<Entry>, a: seq<Entry>, b: seq<Entry>, k: nat)
    requires k < |t| && a == t[..k] && b == t[k + 1..]
    ensures Used(t[k := EMPTY]) == Used(a) + Used(b)
  {
    UsedAround(t[k := EMPTY], a, b, k);
    assert Used(a) + [] == Used(a);
  }

  lemma UsedAround(t: seq<Entry>, a: seq<Entry>, b: seq<Entry>, k: nat)
    requires k < |t| && a == t[..k] && b == t[k + 1..]
    ensures Used(t) == Used(a) + IfUsed(t[k]) + Used(b)
  {
    assert t == a + t[k..] && t[k..][0] == t[k] && t[k..][1..] == b;
    UsedConcat(a, t[k..]);
    assert Used(t[k..]) == IfUsed(t[k]) + Used(b);
  }

  lemma LayoutAt(us: seq<Entry>, sectors: u32)
    requires Good(us, sectors)
    ensures forall k :: 0 <= k < |us| ==> Layout(us)[k] == us[k] && !us[k].Empty()
    ensures forall k :: |us| <= k < SLOTS ==> Layout(us)[k].Empty()
  {
    forall k | 0 <= k < |us| ensures !us[k].Empty() {
      assert Fits(us[k], sectors);
    }
  }

  lemma {:induction false} UsedOfLayout(us: seq<Entry>, n: nat)
    requires forall k :: 0 <= k < |us| ==> !us[k].Empty()
    ensures Used(us + seq(n, _ => EMPTY)) == us && FirstEmpty(us + seq(n, _ => EMPTY)) == |us|
  {
    var rest := seq(n, _ => EMPTY);
    if us == [] {
      assert us + rest == rest;
      AllEmpty(n);
    } else {
      assert (us + rest)[1..] == us[1..] + rest;
      UsedOfLayout(us[1..], n);
    }
  }

  /** On a good layout the new partition starts behind the last one and ends before the reserve. */
  lemma PlaceOnGood(us: seq<Entry>, sectors: u32, t: Table)
    requires Good(us, sectors) && |us| < SLOTS && t == Layout(us)
    ensures StartFor(t, |us|, sectors) == if us == [] && sectors < 2048 then None else Some(NextStart(us))
    ensures sectors >= 34 ==> EndFor(t, |us|, sectors) == sectors - 34
    ensures us != [] ==> sectors >= 34
  {
    LayoutAt(us, sectors);
    if us != [] {
      assert Fits(us[|us| - 1], sectors);
    }
  }

  lemma CutIsGranted(start: u32, end: u32, asked: u32)
    ensures
      Cut(start, end, asked)
      == if start <= end && Granted(start, asked, end + 34) > 0 then Some(Granted(start, asked, end + 34)) else None
  {
  }

  /** On a good layout formatting appends the created entry, or finds no room. */
  lemma FormatOnGood(us: seq<Entry>, sectors: u32, size: u32, kind: byte)
    requires Good(us, sectors)
    ensures
      Formatted(Layout(us), sectors, size, kind)
      == if CanCreate(us, sectors, size) then Some(Layout(us + [Created(us, sectors, size, kind)])) else None
    ensures
      CanCreate(us, sectors, size) ==>
        var start, rounded := NextStart(us), size / 8 * 8;
        var wrapped := (start + rounded) % 0x1_0000_0000;
        Describes(Created(us, sectors, size, kind), kind, start,
                  if sectors - 34 <= wrapped then sectors - 34 - start else rounded)
  {
    var t: Table := Layout(us);
    LayoutAt(us, sectors);
    UsedOfLayout(us, SLOTS - |us|);
    if |us| < SLOTS {
      PlaceOnGood(us, sectors, t);
      if StartFor(t, |us|, sectors).Some? {
        CutIsGranted(NextStart(us), sectors - 34, size / 8 * 8);
        if CanCreate(us, sectors, size) {
          AppendUsed(us, Created(us, sectors, size, kind), t);
        }
      }
    }
  }

  lemma AppendUsed(us: seq<Entry>, e: Entry, t: Table)
    requires |us| < SLOTS && t == Layout(us) && !e.Empty()
    requires forall k :: 0 <= k < |us| ==> !us[k].Empty()
    ensures Used(t[|us| := e]) == us + [e]
  {
    UsedOfLayout(us + [e], SLOTS - |us| - 1);
    assert t[|us| := e] == us + [e] + seq(SLOTS - |us| - 1, _ => EMPTY);
  }

  /** On a good layout deletion closes the gap. */
  lemma DeleteOnGood(us: seq<Entry>, sectors: u32, number: int)
    requires Good(us, sectors)
    ensures
      Deleted(Layout(us), number)
      == if 0 <= number < |us| then Some(Layout(us[..number] + us[number + 1..])) else None
  {
    var t := Layout(us);
    LayoutAt(us, sectors);
    if 0 <= number < |us| {
      DeletedExactly(t, number);
      UsedOfHead(us, number, t[..number]);
      UsedOfTail(us, number + 1, t[number + 1..]);
    }
  }

  lemma UsedOfHead(us: seq<Entry>, k: nat, front: seq<Entry>)
    requires k <= |us| <= SLOTS && front == Layout(us)[..k]
    requires forall k :: 0 <= k < |us| ==> !us[k].Empty()
    ensures Used(front) == us[..k]
  {
    UsedOfLayout(us[..k], 0);
    assert front == us[..k] + seq(0, _ => EMPTY);
  }

  lemma UsedOfTail(us: seq<Entry>, k: nat, rest: seq<Entry>)
    requires k <= |us| <= SLOTS && rest == Layout(us)[k..]
    requires forall k :: 0 <= k < |us| ==> !us[k].Empty()
    ensures Used(rest) == us[k..]
  {
    UsedOfLayout(us[k..], SLOTS - |us|);
    assert rest == us[k..] + seq(SLOTS - |us|, _ => EMPTY);
  }

  // ---------- every run

  datatype Op = Create(size: u32, kind: byte) | Delete(number: int)

  function Apply(t: Table, sectors: u32, op: Op): Table {
    var r := if op.Create? then Formatted(t, sectors, op.size, op.kind) else Deleted(t, op.number);
    if r.Some? then r.value else t
  }

  ghost predicate GoodTable(t: Table, sectors: u32) {
    Good(Used(t), sectors) && t == Layout(Used(t))
  }

  /** The first multiple of eight behind the last partition, or sector 2048. */
  predicate StartsBehind(us: seq<Entry>, start: int) {
    start % 8 == 0
    && if us == [] then start == 2048
       else us[|us| - 1].startLba + us[|us| - 1].nrSectors <= start < us[|us| - 1].startLba + us[|us| - 1].nrSectors + 8
  }

  /** The used entries stay first and in order, and behind them comes one of the type asked for, which
      is not bootable.  It gets the request rounded down or all that is left, as far as the end asked
      for does not wrap around. */
  ghost predicate Appended(us: seq<Entry>, t: Table, sectors: u32, size: u32, kind: byte, e: Entry) {
    var start, rounded := NextStart(us), size / 8 * 8;
    && |us| < SLOTS && t == us + [e] + seq(SLOTS - |us| - 1, _ => EMPTY)
    && Describes(e, kind, start, e.nrSectors) && StartsBehind(us, start)
    && e.nrSectors
       == (if sectors - 34 <= (start + rounded) % 0x1_0000_0000 then sectors - 34 - start else rounded)
    && (start + rounded < 0x1_0000_0000 ==> e.nrSectors == Min(rounded, sectors - 34 - start))
  }

  lemma CreatedEntry(us: seq<Entry>, sectors: u32, size: u32, kind: byte) returns (e: Entry)
    requires Good(us, sectors) && Formatted(Layout(us), sectors, size, kind).Some?
    ensures Appended(us, Formatted(Layout(us), sectors, size, kind).value, sectors, size, kind, e)
  {
    FormatOnGood(us, sectors, size, kind);
    if NextStart(us) + size / 8 * 8 < TWO32 {
      RoomExactly(us, sectors, size, kind);
    }
    NextBehind(us, sectors);
    e := Created(us, sectors, size, kind);
  }

  lemma NextBehind(us: seq<Entry>, sectors: u32)
    requires Good(us, sectors)
    ensures StartsBehind(us, NextStart(us))
  {
    if us != [] {
      assert Fits(us[|us| - 1], sectors);
    }
  }

  /** What formatting does to a good table, and when there is room in it. */
  lemma FormattedExactly(t: Table, sectors: u32, size: u32, kind: byte) returns (e: Entry)
    ensures
      GoodTable(t, sectors) && Formatted(t, sectors, size, kind).Some? ==>
        Appended(Used(t), Formatted(t, sectors, size, kind).value, sectors, size, kind, e)
    ensures
      GoodTable(t, sectors) && NextStart(Used(t)) + size / 8 * 8 < 0x1_0000_0000 ==>
        (Formatted(t, sectors, size, kind).Some?
         <==> |Used(t)| < SLOTS && NextStart(Used(t)) < sectors - 34 && size >= 8)
  {
    e := EMPTY;
    if GoodTable(t, sectors) {
      FormatOnGood(Used(t), sectors, size, kind);
      if NextStart(Used(t)) + size / 8 * 8 < TWO32 {
        RoomExactly(Used(t), sectors, size, kind);
      }
      if Formatted(t, sectors, size, kind).Some? {
        e := CreatedEntry(Used(t), sectors, size, kind);
      }
    }
  }

  lemma GoodLayout(us: seq<Entry>, sectors: u32)
    requires |us| <= SLOTS && forall k :: 0 <= k < |us| ==> !us[k].Empty()
    ensures GoodTable(Layout(us), sectors) <==> Good(us, sectors)
  {
    UsedOfLayout(us, SLOTS - |us|);
  }

  /** The end asked for is below 2^32, for a creation that finds room. */
  ghost predicate ProperOp(t: Table, sectors: u32, op: Op) {
    op.Create? && Formatted(t, sectors, op.size, op.kind).Some? ==> NextStart(Used(t)) + op.size / 8 * 8 < TWO32
  }

  ghost predicate Proper(t: Table, sectors: u32, ops: seq<Op>)
    decreases |ops|
  {
    ops == [] || (ProperOp(t, sectors, ops[0]) && Proper(Apply(t, sectors, ops[0]), sectors, ops[1..]))
  }

  /** The table is in order at every moment of a run. */
  ghost predicate AlwaysGood(t: Table, sectors: u32, ops: seq<Op>)
    decreases |ops|
  {
    GoodTable(t, sectors) && (ops == [] || AlwaysGood(Apply(t, sectors, ops[0]), sectors, ops[1..]))
  }

  lemma CreateStep(us: seq<Entry>, sectors: u32, op: Op, t: Table)
    requires Good(us, sectors) && op.Create? && t == Layout(us) && us == Used(t)
    ensures GoodTable(Apply(t, sectors, op), sectors) <==> ProperOp(t, sectors, op)
  {
    LayoutAt(us, sectors);
    FormatOnGood(us, sectors, op.size, op.kind);
    if CanCreate(us, sectors, op.size) {
      var e := Created(us, sectors, op.size, op.kind);
      CreateExactly(us, sectors, op.size, op.kind);
      GoodLayout(us + [e], sectors);
    }
  }

  lemma DeleteStep(us: seq<Entry>, sectors: u32, op: Op, t: Table)
    requires Good(us, sectors) && op.Delete? && t == Layout(us) && us == Used(t)
    ensures GoodTable(Apply(t, sectors, op), sectors)
  {
    var k := op.number;
    DeleteOnGood(us, sectors, k);
    if 0 <= k < |us| {
      DeleteKeepsGood(us, sectors, k);
      LayoutAt(us[..k] + us[k + 1..], sectors);
      GoodLayout(us[..k] + us[k + 1..], sectors);
    }
  }

  lemma StepKeepsGood(t: Table, sectors: u32, op: Op)
    requires GoodTable(t, sectors)
    ensures GoodTable(Apply(t, sectors, op), sectors) <==> ProperOp(t, sectors, op)
  {
    if op.Create? {
      CreateStep(Used(t), sectors, op, t);
    } else {
      DeleteStep(Used(t), sectors, op, t);
    }
  }

  /** A run of creations and deletions keeps a good table in order all the way exactly when no
      creation that finds room asks for an end at or above 2^32. */
  lemma {:induction false} RunKeepsGood(t: Table, sectors: u32, ops: seq<Op>)
    requires GoodTable(t, sectors)
    ensures AlwaysGood(t, sectors, ops) <==> Proper(t, sectors, ops)
    decreases |ops|
  {
    if ops != [] {
      StepKeepsGood(t, sectors, ops[0]);
      if ProperOp(t, sectors, ops[0]) {
        RunKeepsGood(Apply(t, sectors, ops[0]), sectors, ops[1..]);
      }
    }
  }

  /** An empty disk of 4096 sectors grants a request for 0xFFFF_FFF8 sectors in full. */
  lemma CreatePastEnd()
    ensures Good([], 4096) && CanCreate([], 4096, 0xFFFF_FFF8)
    ensures Created([], 4096, 0xFFFF_FFF8, 0x83) == Made(2048, 0xFFFF_FFF8, 0x83)
    ensures !Good([Created([], 4096, 0xFFFF_FFF8, 0x83)], 4096)
  {
    var e := Created([], 4096, 0xFFFF_FFF8, 0x83);
    assert !Fits(e, 4096);
    assert [e][0] == e;
  }

  // ---------- the operations on a disk

  /** The master boot record of a block device. */
  class Disk {
    const sectors: u32
    var table: Table

    constructor (sectors: u32)
      ensures this.sectors == sectors && table == Layout([])
    {
      this.sectors, table := sectors, Layout([]);
    }
  }

  /** get_mbr_partition_start_address */
  method StartAddress(t: array<Entry>, number: int) returns (r: u32)
    requires t.Length == SLOTS
    ensures r == StartOf(t[..], number)
  {
    if number < 0 || number > 3 {
      return INVALID;
    }
    r := if t[number].Empty() then INVALID else t[number].startLba;
  }

  /** get_empty_MBR_Table; four when every slot is used. */
  method EmptySlot(t: array<Entry>) returns (i: nat)
    requires t.Length == SLOTS
    ensures i == FirstEmpty(t[..]) <= SLOTS
    ensures (forall k :: 0 <= k < i ==> !t[k].Empty()) && (i < SLOTS ==> t[i].Empty())
  {
    i := 0;
    assert t[..][0..] == t[..];
    while i < SLOTS && !t[i].Empty()
      invariant i <= SLOTS && forall k :: 0 <= k < i ==> !t[k].Empty()
      invariant FirstEmpty(t[..]) == i + FirstEmpty(t[..][i..])
    {
      assert t[..][i..][1..] == t[..][i + 1..];
      i := i + 1;
    }
  }

  /** Lines 376-403 */
  method FindStart(t: array<Entry>, slot: nat, sectors: u32) returns (start: u32, ok: bool)
    requires t.Length == SLOTS && slot < SLOTS
    ensures StartFor(t[..], slot, sectors) == if ok then Some(start) else None
    ensures
      if slot > 0 && !t[slot - 1].Empty() && t[slot - 1].startLba != 0xFFFF_FFFF then
        ok && start % 8 == 0
        && (t[slot - 1].End() + 8 <= 0x1_0000_0000 ==> t[slot - 1].End() <= start < t[slot - 1].End() + 8)
      else ok == (sectors >= 2048) && (ok ==> start == 2048)
  {
    ok := true;
    start := StartAddress(t, slot - 1);
    if start == INVALID {
      if sectors < 2048 {
        return 0, false;
      }
      start := 2048;
    } else {
      start := U32(start + t[slot - 1].nrSectors);
    }
    if start % 8 > 0 {
      start := U32(start - start % 8 + 8);
    }
  }

  /** Lines 405-425 */
  method FindRoom(t: array<Entry>, slot: nat, sectors: u32, start: u32, asked: u32) returns (size: u32, ok: bool)
    requires t.Length == SLOTS && slot < SLOTS
    ensures Cut(start, EndFor(t[..], slot, sectors), asked) == if ok then Some(size) else None
    ensures
      var used := slot < 3 && !t[slot + 1].Empty() && t[slot + 1].startLba != 0xFFFF_FFFF;
      var end := if used then t[slot + 1].startLba else (sectors - 34) % 0x1_0000_0000;
      start + asked < 0x1_0000_0000 ==> (ok <==> start < end && asked > 0) && (ok ==> size == Min(asked, end - start))
  {
    size := asked;
    var end := StartAddress(t, slot + 1);
    if end == INVALID {
      end := U32(sectors - 33 - 1);
    }
    if end < start {
      return size, false;
    }
    if end <= U32(start + size) {
      size := end - start;
    }
    ok := size > 0;
  }

  /** mbr_partition_table_format; `loaded` and `written` say whether the transfers succeed.  On a good
      table e is the entry that is added. */
  method Format(disk: Disk, loaded: bool, written: bool, asked: u32, kind: byte)
    returns (status: int, ghost e: Entry)
    modifies disk
    ensures
      var r := Formatted(old(disk.table), disk.sectors, asked, kind);
      && status == (if loaded && r.Some? then 0 else -1)
      && disk.table == if status == 0 && written then r.value else old(disk.table)
    ensures
      GoodTable(old(disk.table), disk.sectors) && status == 0 && written ==>
        Appended(Used(old(disk.table)), disk.table, disk.sectors, asked, kind, e)
    ensures
      GoodTable(old(disk.table), disk.sectors) && NextStart(Used(old(disk.table))) + asked / 8 * 8 < 0x1_0000_0000 ==>
        var us := Used(old(disk.table));
        status == 0 <==> loaded && |us| < SLOTS && NextStart(us) < disk.sectors - 34 && asked >= 8
  {
    e := FormattedExactly(disk.table, disk.sectors, asked, kind);
    if !loaded {
      return -1, e;
    }
    var t := new Entry[SLOTS](i requires 0 <= i < SLOTS reads disk => disk.table[i]);
    assert t[..] == disk.table;
    var size := asked / 8 * 8;
    var slot := EmptySlot(t);
    if slot == SLOTS {
      return -1, e;
    }
    var start, ok := FindStart(t, slot, disk.sectors);
    if !ok {
      return -1, e;
    }
    size, ok := FindRoom(t, slot, disk.sectors, start, size);
    if !ok {
      return -1, e;
    }
    t[slot] := Made(start, size, kind);
    assert t[..] == disk.table[slot := Made(start, size, kind)];
    TidyUp(t);
    if written {
      disk.table := t[..];
    }
    status := 0;
  }

  /** mbr_table_delete on a device that carries a table. */
  method DeletePartition(disk: Disk, loaded: bool, written: bool, number: int) returns (status: int)
    modifies disk
    ensures
      var r := Deleted(old(disk.table), number);
      && status == (if loaded && r.Some? then 0 else -1)
      && disk.table == if status == 0 && written then r.value else old(disk.table)
  {
    if number < 0 || number > 3 || !loaded {
      return -1;
    }
    var t := new Entry[SLOTS](i requires 0 <= i < SLOTS reads disk => disk.table[i]);
    assert t[..] == disk.table;
    if t[number].Empty() {
      return -1;
    }
    t[number] := EMPTY;
    assert t[..] == disk.table[number := EMPTY];
    TidyUp(t);
    if written {
      disk.table := t[..];
    }
    status := 0;
  }
}
