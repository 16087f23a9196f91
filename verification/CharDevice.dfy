/** The registry of fs/char_device.c with its linked chains, proved against CharTable and
    CharSpan. */
module CharDevice {
  import opened Machine
  import opened CharTable
  import opened CharSpan

  /** struct char_device_struct, without the name and the cdev pointer. */
  class Device {
    var next: Device?
    const region: Region

    constructor (region: Region, next: Device?)
      ensures this.region == region && this.next == next
    {
      this.region := region;
      this.next := next;
    }
  }

  ghost function Values(chain: seq<Device>): (v: seq<Region>)
    ensures |v| == |chain|
    ensures forall j :: 0 <= j < |chain| ==> v[j] == chain[j].region
  {
    seq(|chain|, j requires 0 <= j < |chain| => chain[j].region)
  }

  ghost function TableOf(chains: seq<seq<Device>>): (t: Table)
    ensures |t| == |chains|
    ensures forall i :: 0 <= i < |chains| ==> t[i] == Values(chains[i])
  {
    seq(|chains|, i requires 0 <= i < |chains| => Values(chains[i]))
  }

  /** The pointer d stands at position j of the chain, which may be its end. */
  ghost predicate PointsAt(d: Device?, chain: seq<Device>, j: nat) {
    && j <= |chain|
    && (j < |chain| ==> d == chain[j])
    && (j == |chain| ==> d == null)
  }

  ghost predicate Linked(head: Device?, chain: seq<Device>)
    reads chain
  {
    && PointsAt(head, chain, 0)
    && (forall j {:trigger chain[j].next} :: 0 <= j < |chain| ==> PointsAt(chain[j].next, chain, j + 1))
    && (forall j, k :: 0 <= j < k < |chain| ==> chain[j] != chain[k])
  }

  /** The buckets and everything that hangs from them. */
  class Registry {
    const chrdevs: array<Device?>
    ghost var chains: seq<seq<Device>>
    ghost var nodes: set<Device>

    /** The pointers are right, every entry is known and hangs in the bucket of its major. */
    ghost predicate Valid()
      reads this, chrdevs, nodes
    {
      && chrdevs.Length == HASH_SIZE == |chains|
      && (forall i :: 0 <= i < HASH_SIZE ==> forall j :: 0 <= j < |chains[i]| ==> Belongs(chains[i][j], i))
      && (forall i :: 0 <= i < HASH_SIZE ==> Linked(chrdevs[i], chains[i]))
    }

    ghost predicate Belongs(d: Device, i: nat)
      reads this
    {
      d in nodes && d.region.major % HASH_SIZE == i
    }

    /** The registry as a value. */
    ghost function Contents(): (t: Table)
      reads this
    {
      TableOf(chains)
    }

    constructor ()
      ensures Valid() && fresh(chrdevs) && nodes == {} && Contents() == EMPTY
    {
      chrdevs := new Device?[HASH_SIZE](i => null);
      chains := seq(HASH_SIZE, i => []);
      nodes := {};
      new;
      assert Contents() == EMPTY;
    }

    /** The inner loop of find_dynamic_major. */
    method Uses(major: nat) returns (used: bool)
      requires Valid()
      ensures used == InUse(Contents(), major)
    {
      ghost var chain, j := chains[major % HASH_SIZE], 0;
      assert Contents()[major % HASH_SIZE] == Values(chain);
      var cd := chrdevs[major % HASH_SIZE];
      while cd != null
        invariant PointsAt(cd, chain, j)
        invariant forall k :: 0 <= k < j ==> chain[k].region.major != major
        decreases |chain| - j
      {
        if cd.region.major == major {
          return true;
        }
        cd := cd.next;
        j := j + 1;
      }
      used := false;
    }

    /** find_dynamic_major, which starts at `top` == DYN_EXT_START.  Its first loop, from 126 down
        to 234, never runs and is not shown. */
    method FindDynamicMajor(top: nat) returns (m: Option<nat>)
      requires Valid()
      ensures m == FindDynamic(Contents(), top)
    {
      ghost var t := Contents();
      var i: nat := top;
      while i >= DYN_EXT_END
        invariant i <= top && forall k :: i < k <= top ==> InUse(t, k)
      {
        var used := Uses(i);
        if !used {
          FoundDynamic(t, top, i);
          return Some(i);
        }
        assert InUse(t, i);
        i := i - 1;
      }
      m := None;
      FoundDynamic(t, top, i);
    }

    /** The scan of __register_chrdev_region for the place of r in its chain. */
    method Scan(r: Region) returns (prev: Device?, curr: Device?, busy: bool, ghost p: nat)
      requires Valid()
      ensures p == Slot(Contents()[r.major % HASH_SIZE], r)
      ensures busy == Busy(Contents()[r.major % HASH_SIZE], r)
      ensures PointsAt(curr, chains[r.major % HASH_SIZE], p)
      ensures if p == 0 then prev == null else prev == chains[r.major % HASH_SIZE][p - 1]
    {
      ghost var chain, values := chains[r.major % HASH_SIZE], Contents()[r.major % HASH_SIZE];
      assert values[0..] == values == Values(chain);
      prev, curr, p := null, chrdevs[r.major % HASH_SIZE], 0;
      while curr != null
        invariant PointsAt(curr, chain, p)
        invariant if p == 0 then prev == null else prev == chain[p - 1]
        invariant Slot(values, r) == p + Slot(values[p..], r)
        decreases |chain| - p
      {
        assert values[p..][0] == curr.region && values[p..][1..] == values[p + 1..];
        if curr.region.major < r.major || (curr.region.major == r.major && curr.region.End() <= r.baseminor) {
          prev, curr := curr, curr.next;
          p := p + 1;
        } else {
          busy := !(curr.region.major > r.major || curr.region.baseminor >= r.End());
          return;
        }
      }
      busy := false;
    }

    /** Nodes of different buckets are different: they have different majors. */
    lemma BucketsDisjoint(i: nat, d: Device)
      requires Valid() && i < HASH_SIZE && d.region.major % HASH_SIZE == i
      ensures forall k :: 0 <= k < HASH_SIZE && k != i ==> d !in chains[k]
    {
      forall k | 0 <= k < HASH_SIZE && k != i ensures d !in chains[k] {
        forall j | 0 <= j < |chains[k]| ensures chains[k][j] != d {
          assert Belongs(chains[k][j], k);
        }
      }
    }

    /** The pointer updates that hang cd between prev and curr, or at the head of chain i; the
        ghost chains already show the result, and `before` the chains as they still are. */
    method Hang(i: nat, cd: Device, prev: Device?, curr: Device?, ghost p: nat, ghost before: seq<seq<Device>>)
      requires chrdevs.Length == HASH_SIZE == |before| && i < HASH_SIZE
      requires forall k :: 0 <= k < HASH_SIZE ==> Linked(chrdevs[k], before[k])
      requires forall k :: 0 <= k < HASH_SIZE ==> cd !in before[k]
      requires prev != null ==> forall k :: 0 <= k < HASH_SIZE && k != i ==> prev !in before[k]
      requires PointsAt(curr, before[i], p)
      requires if p == 0 then prev == null else prev == before[i][p - 1]
      requires chains == before[i := before[i][..p] + [cd] + before[i][p..]]
      requires forall k :: 0 <= k < HASH_SIZE ==> forall j :: 0 <= j < |chains[k]| ==> Belongs(chains[k][j], k)
      modifies chrdevs, nodes, cd
      ensures Valid()
    {
      if prev == null {
        cd.next := curr;
        chrdevs[i] := cd;
        assert Linked(curr, before[i]);
        LinkedFirst(before[i], cd);
      } else {
        assert chains[i][p - 1] == prev;
        InsertAfter(prev, cd, chrdevs[i], before[i], p);
      }
      assert forall k :: 0 <= k < HASH_SIZE && k != i ==> Linked(chrdevs[k], before[k]);
    }

    /** Hangs the new entry cd between prev and curr, or at the head of its chain. */
    method Link(cd: Device, prev: Device?, curr: Device?, ghost p: nat)
      requires Valid()
      requires cd !in nodes
      requires
        var chain := chains[cd.region.major % HASH_SIZE];
        && PointsAt(curr, chain, p)
        && (if p == 0 then prev == null else prev == chain[p - 1])
        && p == Slot(Values(chain), cd.region)
      modifies this, chrdevs, nodes, cd
      ensures Valid() && nodes == old(nodes) + {cd}
      ensures
        var i := cd.region.major % HASH_SIZE;
        Contents() == old(Contents())[i := Insert(old(Contents())[i], cd.region)]
    {
      var i := cd.region.major % HASH_SIZE;
      ghost var before, chain := chains, chains[i];
      if prev != null {
        assert Belongs(chain[p - 1], i);
        BucketsDisjoint(i, prev);
      }
      ghost var longer := chain[..p] + [cd] + chain[p..];
      ValuesWith(chain, p, cd);
      chains := chains[i := longer];
      nodes := nodes + {cd};
      forall j | 0 <= j < |longer| ensures Belongs(longer[j], i) {
        assert j != p ==> longer[j] == chain[if j < p then j else j - 1];
      }
      assert Contents() == old(Contents())[i := Values(longer)];
      Hang(i, cd, prev, curr, p, before);
    }

    /** __register_chrdev_region; `memory` says whether the allocation succeeds. */
    method RegisterRegion(major: u32, baseminor: u32, minorct: u32, memory: bool) returns (o: Outcome)
      requires Valid()
      modifies this, chrdevs, nodes
      ensures Valid() && fresh(nodes - old(nodes))
      ensures (Contents(), o) == Register(old(Contents()), major, baseminor, minorct, memory)
    {
      if major >= MAJOR_MAX {
        return Failed(EINVAL);
      }
      if minorct > U32(MINORS - baseminor) {
        return Failed(EINVAL);
      }
      if !memory {
        return Failed(ENOMEM);
      }
      var chosen: nat := major;
      if major == 0 {
        var m := FindDynamicMajor(DYN_EXT_START);
        DynamicIsLargest(Contents(), DYN_EXT_START);
        if m.None? {
          return Failed(EBUSY);
        }
        chosen := m.value;
      }
      o := Place(Region(chosen, baseminor, minorct));
    }

    /** The scan for the place of r, and its insertion. */
    method Place(r: Region) returns (o: Outcome)
      requires Valid()
      modifies this, chrdevs, nodes
      ensures Valid() && fresh(nodes - old(nodes))
      ensures
        var t, i := old(Contents()), r.major % HASH_SIZE;
        (Contents(), o)
        == if Busy(t[i], r) then (t, Failed(EBUSY)) else (t[i := Insert(t[i], r)], Registered(r))
    {
      var prev, curr, busy;
      ghost var p;
      prev, curr, busy, p := Scan(r);
      if busy {
        return Failed(EBUSY);
      }
      var cd := new Device(r, null);
      Link(cd, prev, curr, p);
      o := Registered(r);
    }

    /** The pointer updates that take cd out from behind prev, or from the head of chain i; the
        ghost chains already show the result. */
    method Unhang(i: nat, cd: Device, prev: Device?, ghost p: nat, ghost before: seq<seq<Device>>)
      requires chrdevs.Length == HASH_SIZE == |before| && i < HASH_SIZE
      requires forall k :: 0 <= k < HASH_SIZE ==> Linked(chrdevs[k], before[k])
      requires prev != null ==> prev in nodes && forall k :: 0 <= k < HASH_SIZE && k != i ==> prev !in before[k]
      requires PointsAt(cd, before[i], p) && p < |before[i]|
      requires if p == 0 then prev == null else prev == before[i][p - 1]
      requires chains == before[i := before[i][..p] + before[i][p + 1..]]
      requires forall k :: 0 <= k < HASH_SIZE ==> forall j :: 0 <= j < |chains[k]| ==> Belongs(chains[k][j], k)
      modifies chrdevs, nodes
      ensures Valid()
    {
      if prev == null {
        chrdevs[i] := cd.next;
        LinkedRest(before[i], cd);
      } else {
        RemoveAfter(prev, cd, chrdevs[i], before[i], p);
      }
      assert forall k :: 0 <= k < HASH_SIZE && k != i ==> Linked(chrdevs[k], before[k]);
    }

    /** The scan of __unregister_chrdev_region for the first entry equal to r. */
    method Locate(r: Region) returns (prev: Device?, curr: Device?, ghost p: nat)
      requires Valid()
      ensures PointsAt(curr, chains[r.major % HASH_SIZE], p)
      ensures if p == 0 then prev == null else prev == chains[r.major % HASH_SIZE][p - 1]
      ensures forall j :: 0 <= j < p ==> chains[r.major % HASH_SIZE][j].region != r
      ensures curr != null ==> curr.region == r
    {
      ghost var chain := chains[r.major % HASH_SIZE];
      prev, curr, p := null, chrdevs[r.major % HASH_SIZE], 0;
      while curr != null
        invariant PointsAt(curr, chain, p)
        invariant if p == 0 then prev == null else prev == chain[p - 1]
        invariant forall j :: 0 <= j < p ==> chain[j].region != r
        decreases |chain| - p
      {
        if curr.region.major == r.major && curr.region.baseminor == r.baseminor && curr.region.minorct == r.minorct {
          return;
        }
        prev, curr := curr, curr.next;
        p := p + 1;
      }
    }

    /** Takes the entry cd at position p, the first one equal to its region, out of its chain. */
    method Unlink(cd: Device, prev: Device?, ghost p: nat)
      requires Valid()
      requires
        var chain := chains[cd.region.major % HASH_SIZE];
        && p < |chain| && cd == chain[p]
        && (if p == 0 then prev == null else prev == chain[p - 1])
        && forall j :: 0 <= j < p ==> chain[j].region != cd.region
      modifies this, chrdevs, nodes
      ensures Valid() && nodes == old(nodes)
      ensures Contents() == Unregister(old(Contents()), cd.region)
    {
      var i := cd.region.major % HASH_SIZE;
      ghost var before, chain := chains, chains[i];
      assert p > 0 ==> prev.region == Contents()[i][p - 1];
      if prev != null {
        BucketsDisjoint(i, prev);
      }
      ghost var shorter := chain[..p] + chain[p + 1..];
      ValuesWithout(chain, p);
      chains := chains[i := shorter];
      assert Contents() == old(Contents())[i := Values(shorter)];
      Unhang(i, cd, prev, p, before);
    }

    /** __unregister_chrdev_region; the result is the entry that was taken out, or null. */
    method UnregisterRegion(r: Region) returns (cd: Device?)
      requires Valid()
      modifies this, chrdevs, nodes
      ensures Valid() && nodes == old(nodes)
      ensures Contents() == Unregister(old(Contents()), r)
      ensures cd != null <==> r in old(Contents())[r.major % HASH_SIZE]
      ensures cd != null ==> cd.region == r
    {
      ghost var t, i := Contents(), r.major % HASH_SIZE;
      var prev;
      ghost var p;
      prev, cd, p := Locate(r);
      if cd == null {
        RemoveAbsent(t[i], r);
        assert t[i := t[i]] == t;
      } else {
        assert t[i][p] == r;
        Unlink(cd, prev, p);
      }
    }

    /** One round of the first loop of register_chrdev_region. */
    method RegisterPart(n: u32, to: u32, memory: bool) returns (o: Outcome, next: u32)
      requires Valid()
      modifies this, chrdevs, nodes
      ensures Valid() && fresh(nodes - old(nodes))
      ensures (Contents(), o) == CharSpan.RegisterPart(old(Contents()), n, to, memory) && next == NextPart(n, to)
    {
      next := NextMajor(n);
      if next > to {
        next := to;
      }
      o := RegisterRegion(MAJOR(n), MINOR(n), U32(next - n), memory);
    }

    /** The first loop of register_chrdev_region. */
    method RegisterLoop(from: u32, to: u32, memory: nat -> bool) returns (n: u32, e: Option<Errno>)
      requires Valid()
      modifies this, chrdevs, nodes
      ensures Valid() && fresh(nodes - old(nodes))
      ensures (Contents(), n, e) == RegisterParts(old(Contents()), from, to, memory)
    {
      n := from;
      e := None;
      ghost var result := RegisterParts(Contents(), from, to, memory);
      while n < to && e.None?
        invariant Valid() && fresh(nodes - old(nodes))
        invariant if e.None? then RegisterParts(Contents(), n, to, memory) == result else (Contents(), n, e) == result
        decreases e.None?, if n < to then to - n else 0
      {
        PartsStep(Contents(), n, to, memory);
        var o, next := RegisterPart(n, to, memory(MAJOR(n)));
        if o.Failed? {
          e := Some(o.error);
        } else {
          n := next;
        }
      }
    }

    /** One round of the loop after the label `fail`. */
    method RollbackPart(n: u32) returns (next: u32)
      requires Valid()
      modifies this, chrdevs, nodes
      ensures Valid() && nodes == old(nodes) && next == NextMajor(n)
      ensures Contents() == Unregister(old(Contents()), Region(MAJOR(n), MINOR(n), U32(NextMajor(n) - n)))
    {
      next := NextMajor(n);
      var cd := UnregisterRegion(Region(MAJOR(n), MINOR(n), U32(next - n)));
    }

    /** The loop after the label `fail`. */
    method RollbackLoop(from: u32, to: u32)
      requires Valid()
      requires from < to ==> to <= MAJOR_MAX * MINORS
      modifies this, chrdevs, nodes
      ensures Valid() && nodes == old(nodes)
      ensures Contents() == Rollback(old(Contents()), from, to)
    {
      var n: u32 := from;
      ghost var result := Rollback(Contents(), from, to);
      while n < to
        invariant Valid() && nodes == old(nodes)
        invariant n < to ==> to <= MAJOR_MAX * MINORS
        invariant Rollback(Contents(), n, to) == result
        decreases if n < to then to - n else 0
      {
        RollbackStep(Contents(), n, to);
        n := RollbackPart(n);
      }
    }

    /** register_chrdev_region.  For a good registry and a span that does not begin in major 0 and does
        not wrap around, `stop` is the first major that cannot be registered. */
    method RegisterSpan(from: u32, count: u32, memory: nat -> bool) returns (e: Option<Errno>, ghost stop: nat)
      requires Valid()
      modifies this, chrdevs, nodes
      ensures Valid() && fresh(nodes - old(nodes))
      ensures (Contents(), e) == CharSpan.RegisterSpan(old(Contents()), from, count, memory)
      ensures
        Good(old(Contents())) && MAJOR(from) >= 1 && count > 0 && from + count < TWO32 ==>
          && FirstObstacle(old(Contents()), from, from + count, memory, stop, e)
          && (e.None? <==> AllRegistrable(old(Contents()), from, from + count, memory))
    {
      var to := U32(from + count);
      stop := 0;
      if Good(Contents()) && MAJOR(from) >= 1 && count > 0 && from + count < TWO32 {
        stop := SpanExactly(Contents(), from, count, memory);
      }
      FailurePoint(Contents(), from, to, memory);
      var n;
      n, e := RegisterLoop(from, to, memory);
      if e.Some? {
        RollbackLoop(from, n);
      }
    }

    /** One round of the loop of unregister_chrdev_region. */
    method UnregisterPart(n: u32, to: u32) returns (next: u32)
      requires Valid()
      modifies this, chrdevs, nodes
      ensures Valid() && nodes == old(nodes)
      ensures next == NextPart(n, to)
      ensures Contents() == Unregister(old(Contents()), Region(MAJOR(n), MINOR(n), U32(NextPart(n, to) - n)))
    {
      next := NextMajor(n);
      if next > to {
        next := to;
      }
      var cd := UnregisterRegion(Region(MAJOR(n), MINOR(n), U32(next - n)));
    }

    /** unregister_chrdev_region.  What it requires is that the loop ends, see
        UnregisterEndsExactly. */
    method UnregisterSpan(from: u32, count: u32)
      requires Valid()
      requires from < U32(from + count) ==> U32(from + count) <= 0xFFF * MINORS
      modifies this, chrdevs, nodes
      ensures Valid() && nodes == old(nodes)
      ensures Contents() == UnregisterParts(old(Contents()), from, U32(from + count))
    {
      var n: u32, to := from, U32(from + count);
      ghost var result := UnregisterParts(Contents(), from, to);
      while n < to
        invariant Valid() && nodes == old(nodes)
        invariant n < to ==> to <= 0xFFF * MINORS
        invariant UnregisterParts(Contents(), n, to) == result
        decreases if n < to then to - n else 0
      {
        UnregisterStep(Contents(), n, to);
        n := UnregisterPart(n, to);
      }
    }

    /** alloc_chrdev_region: the result is the first device number of the allocated region. */
    method AllocRegion(baseminor: u32, count: u32, memory: bool) returns (dev: u32, o: Outcome)
      requires Valid()
      modifies this, chrdevs, nodes
      ensures Valid() && fresh(nodes - old(nodes))
      ensures (Contents(), o) == Register(old(Contents()), 0, baseminor, count, memory)
      ensures o.Registered? ==> dev == MKDEV(o.region.major, o.region.baseminor)
    {
      o := RegisterRegion(0, baseminor, count, memory);
      dev := 0;
      if o.Registered? {
        dev := MKDEV(o.region.major, o.region.baseminor);
      }
    }

    /** The entry that find_chrdev selects: the first one that covers the device number.  In good
        chains it is the one owner of the number. */
    method FindChrdev(major: u32, minor: u32) returns (cd: Device?, ghost j: nat)
      requires Valid()
      ensures PointsAt(cd, chains[major % HASH_SIZE], j)
      ensures forall k :: 0 <= k < j ==> !chains[major % HASH_SIZE][k].region.Covers(major, minor)
      ensures cd != null ==> cd.region.Covers(major, minor)
      ensures Good(Contents()) ==> (cd == null <==> !Owned(Contents(), major, minor))
      ensures
        Good(Contents()) && cd != null ==>
          && cd.region.Owns(major, minor)
          && forall d :: d in chains[major % HASH_SIZE] && d != cd ==> !d.region.Owns(major, minor)
    {
      ghost var chain := chains[major % HASH_SIZE];
      cd, j := chrdevs[major % HASH_SIZE], 0;
      while cd != null && !(cd.region.major == major && cd.region.baseminor <= minor && minor < cd.region.End())
        invariant PointsAt(cd, chain, j)
        invariant forall k :: 0 <= k < j ==> !chain[k].region.Covers(major, minor)
        decreases |chain| - j
      {
        cd := cd.next;
        j := j + 1;
      }
      if Good(Contents()) {
        assert Contents()[major % HASH_SIZE] == Values(chain);
        FirstIsOwner(chain, major % HASH_SIZE, j, major, minor);
      }
    }
  }

  /** In a good chain the first entry that covers a number is its only owner. */
  lemma FirstIsOwner(chain: seq<Device>, bucket: nat, j: nat, major: u32, minor: u32)
    requires GoodChain(Values(chain), bucket) && j <= |chain|
    requires forall k :: 0 <= k < j ==> !chain[k].region.Covers(major, minor)
    requires j < |chain| ==> chain[j].region.Covers(major, minor)
    ensures OwnedIn(Values(chain), major, minor) <==> j < |chain|
    ensures j < |chain| ==> chain[j].region.Owns(major, minor)
    ensures j < |chain| ==> forall d :: d in chain && d != chain[j] ==> !d.region.Owns(major, minor)
  {
    forall k | 0 <= k < |chain|
      ensures Values(chain)[k].Owns(major, minor) <==> chain[k].region.Covers(major, minor)
    {
      OwnsTest(Values(chain)[k], major, minor);
    }
    if j < |chain| {
      assert Values(chain)[j].Owns(major, minor);
      OwnerIsUnique(Values(chain), bucket, j, major, minor);
      forall k | 0 <= k < |chain| && chain[k] != chain[j] ensures !chain[k].region.Owns(major, minor) {
        assert Values(chain)[k] == chain[k].region;
      }
    }
  }

  lemma ValuesWith(chain: seq<Device>, p: nat, cd: Device)
    requires p <= |chain| && p == Slot(Values(chain), cd.region)
    ensures Values(chain[..p] + [cd] + chain[p..]) == Insert(Values(chain), cd.region)
  {
  }

  lemma ValuesWithout(chain: seq<Device>, p: nat)
    requires p < |chain| && forall j :: 0 <= j < p ==> chain[j].region != chain[p].region
    ensures Values(chain[..p] + chain[p + 1..]) == Remove(Values(chain), chain[p].region)
  {
    RemoveAt(Values(chain), chain[p].region, p);
  }

  lemma LinkedRest(chain: seq<Device>, cd: Device)
    requires chain != [] && cd == chain[0]
    requires Linked(cd, chain)
    ensures Linked(cd.next, chain[..0] + chain[1..])
  {
    var rest := chain[1..];
    assert chain[..0] + chain[1..] == rest;
    assert PointsAt(chain[0].next, chain, 1);
    forall j | 0 <= j < |rest| ensures PointsAt(rest[j].next, rest, j + 1) {
      assert rest[j] == chain[j + 1];
      assert PointsAt(chain[j + 1].next, chain, j + 2);
    }
  }

  /** Takes cd out from behind prev. */
  method RemoveAfter(prev: Device, cd: Device, ghost head: Device?, ghost chain: seq<Device>, ghost p: nat)
    requires Linked(head, chain)
    requires 0 < p < |chain| && prev == chain[p - 1] && cd == chain[p]
    modifies prev
    ensures Linked(head, chain[..p] + chain[p + 1..])
  {
    assert PointsAt(cd.next, chain, p + 1);
    prev.next := cd.next;
    ghost var shorter := chain[..p] + chain[p + 1..];
    forall j | 0 <= j < |shorter| ensures PointsAt(shorter[j].next, shorter, j + 1) {
      assert j < p ==> shorter[j] == chain[j];
      assert j >= p ==> shorter[j] == chain[j + 1];
    }
  }

  lemma LinkedFirst(chain: seq<Device>, cd: Device)
    requires cd !in chain && PointsAt(cd.next, chain, 0)
    requires Linked(cd.next, chain)
    ensures Linked(cd, chain[..0] + [cd] + chain[0..])
  {
    var longer := [cd] + chain;
    assert chain[..0] + [cd] + chain[0..] == longer;
    forall j | 0 <= j < |longer| ensures PointsAt(longer[j].next, longer, j + 1) {
      assert j > 0 ==> longer[j] == chain[j - 1];
    }
  }

  /** Hangs cd behind prev, the entry before position p. */
  method InsertAfter(prev: Device, cd: Device, ghost head: Device?, ghost chain: seq<Device>, ghost p: nat)
    requires Linked(head, chain) && cd !in chain
    requires 0 < p <= |chain| && prev == chain[p - 1]
    modifies prev, cd
    ensures Linked(head, chain[..p] + [cd] + chain[p..])
  {
    assert PointsAt(prev.next, chain, p);
    cd.next := prev.next;
    prev.next := cd;
    ghost var longer := chain[..p] + [cd] + chain[p..];
    forall j | 0 <= j < |longer| ensures PointsAt(longer[j].next, longer, j + 1) {
      assert j < p ==> longer[j] == chain[j];
      assert j > p ==> longer[j] == chain[j - 1];
    }
  }
}
