/** The inodes and directory entries of fs/initramfs/initramfs.c: reference counts, hard links
    and allocation failures. */
module Initramfs {
  import opened Machine

  // ---------- lists

  /** list_del: the list without the first occurrence of x. */
  function Without<T(==)>(xs: seq<T>, x: T): seq<T> {
    if xs == [] then [] else if xs[0] == x then xs[1..] else [xs[0]] + Without(xs[1..], x)
  }

  lemma {:induction false} WithoutAt<T>(xs: seq<T>, i: nat)
    requires i < |xs| && forall k :: 0 <= k < i ==> xs[k] != xs[i]
    ensures Without(xs, xs[i]) == xs[..i] + xs[i + 1..]
  {
    if i > 0 {
      WithoutAt(xs[1..], i - 1);
      assert xs[..i] == [xs[0]] + xs[1..][..i - 1];
    }
  }

  // ---------- counting links

  /** struct initramfs_dentry */
  class Dentry {
    const name: string
    const target: Inode

    constructor (name: string, target: Inode)
      ensures this.name == name && this.target == target
    {
      this.name, this.target := name, target;
    }
  }

  /** struct initramfs_inode, as far as the directory graph is concerned. */
  class Inode {
    var isDir: bool
    var dentryCount: int
    var entries: seq<Dentry>

    constructor ()
      ensures !isDir && dentryCount == 0 && entries == []
    {
      isDir, dentryCount, entries := false, 0, [];
    }
  }

  ghost function LinksIn(entries: seq<Dentry>, t: Inode): nat {
    if entries == [] then 0 else (if entries[0].target == t then 1 else 0) + LinksIn(entries[1..], t)
  }

  lemma {:induction false} LinksInDrop(es: seq<Dentry>, j: nat, t: Inode)
    requires j < |es|
    ensures LinksIn(es[..j] + es[j + 1..], t) == LinksIn(es, t) - if es[j].target == t then 1 else 0
  {
    if j > 0 {
      LinksInDrop(es[1..], j - 1, t);
      assert (es[..j] + es[j + 1..])[1..] == es[1..][..j - 1] + es[1..][j..];
    } else {
      assert es[..j] + es[j + 1..] == es[1..];
    }
  }

  /** An inode that no entry targets has no links. */
  lemma {:induction false} NoLinksIn(es: seq<Dentry>, t: Inode)
    requires forall j :: 0 <= j < |es| ==> es[j].target != t
    ensures LinksIn(es, t) == 0
  {
    if es != [] {
      NoLinksIn(es[1..], t);
    }
  }

  /** The state of one inode. */
  datatype Node = Node(entries: seq<Dentry>, count: int, isDir: bool)

  ghost function Links(nodes: seq<Node>, t: Inode): nat {
    if nodes == [] then 0 else LinksIn(nodes[0].entries, t) + Links(nodes[1..], t)
  }

  lemma {:induction false} LinksUpdate(nodes: seq<Node>, i: nat, n: Node, t: Inode)
    requires i < |nodes|
    ensures Links(nodes[i := n], t) == Links(nodes, t) - LinksIn(nodes[i].entries, t) + LinksIn(n.entries, t)
  {
    if i > 0 {
      LinksUpdate(nodes[1..], i - 1, n, t);
      assert nodes[i := n][1..] == nodes[1..][i - 1 := n];
    }
  }

  lemma {:induction false} LinksDrop(nodes: seq<Node>, i: nat, t: Inode)
    requires i < |nodes|
    ensures Links(nodes[..i] + nodes[i + 1..], t) == Links(nodes, t) - LinksIn(nodes[i].entries, t)
  {
    if i > 0 {
      LinksDrop(nodes[1..], i - 1, t);
      assert (nodes[..i] + nodes[i + 1..])[1..] == nodes[1..][..i - 1] + nodes[1..][i..];
    } else {
      assert nodes[..i] + nodes[i + 1..] == nodes[1..];
    }
  }

  lemma {:induction false} LinkCounts(nodes: seq<Node>, i: nat, j: nat)
    requires i < |nodes| && j < |nodes[i].entries|
    ensures Links(nodes, nodes[i].entries[j].target) >= 1
  {
    if i > 0 {
      LinkCounts(nodes[1..], i - 1, j);
    } else {
      EntryCounts(nodes[0].entries, j);
    }
  }

  lemma {:induction false} EntryCounts(es: seq<Dentry>, j: nat)
    requires j < |es|
    ensures LinksIn(es, es[j].target) >= 1
  {
    if j > 0 {
      EntryCounts(es[1..], j - 1);
    }
  }

  lemma {:induction false} NoLinks(nodes: seq<Node>, t: Inode)
    requires forall i, j :: 0 <= i < |nodes| && 0 <= j < |nodes[i].entries| ==> nodes[i].entries[j].target != t
    ensures Links(nodes, t) == 0
  {
    if nodes != [] {
      NoLinksIn(nodes[0].entries, t);
      forall i, j | 0 <= i < |nodes[1..]| && 0 <= j < |nodes[1..][i].entries|
        ensures nodes[1..][i].entries[j].target != t
      {
        assert nodes[1..][i].entries[j] == nodes[i + 1].entries[j];
      }
      NoLinks(nodes[1..], t);
    }
  }

  // ---------- the graph as a value

  /** How often t is referred to: by directory entries, and the root once more. */
  ghost function References(root: Inode, nodes: seq<Node>, t: Inode): nat {
    Links(nodes, t) + if t == root then 1 else 0
  }

  ghost predicate Distinct(inodes: seq<Inode>) {
    forall i, j :: 0 <= i < j < |inodes| ==> inodes[i] != inodes[j]
  }

  /** Every reference count is exact. */
  ghost predicate Counted(root: Inode, inodes: seq<Inode>, nodes: seq<Node>)
    requires |inodes| == |nodes|
  {
    forall i {:trigger nodes[i].count} :: 0 <= i < |inodes| ==> nodes[i].count == References(root, nodes, inodes[i])
  }

  /** No entry targets an inode outside the list. */
  ghost predicate Closed(inodes: seq<Inode>, nodes: seq<Node>) {
    forall i, j :: 0 <= i < |nodes| && 0 <= j < |nodes[i].entries| ==> nodes[i].entries[j].target in inodes
  }

  ghost predicate OnlyDirsHaveEntries(nodes: seq<Node>) {
    forall i :: 0 <= i < |nodes| && !nodes[i].isDir ==> nodes[i].entries == []
  }

  ghost predicate AllCounted(nodes: seq<Node>) {
    forall i :: 0 <= i < |nodes| ==> nodes[i].count >= 1
  }

  ghost predicate Consistent(root: Inode, inodes: seq<Inode>, nodes: seq<Node>) {
    && |inodes| == |nodes| && root in inodes && Distinct(inodes)
    && Counted(root, inodes, nodes) && Closed(inodes, nodes)
  }

  /** A new inode without links joins. */
  lemma JoinInode(root: Inode, inodes: seq<Inode>, nodes: seq<Node>, ino: Inode)
    requires Consistent(root, inodes, nodes) && ino !in inodes
    ensures Consistent(root, [ino] + inodes, [Node([], 0, false)] + nodes)
  {
    var more := [Node([], 0, false)] + nodes;
    assert more[1..] == nodes;
    forall t: Inode ensures Links(more, t) == Links(nodes, t) {
      assert Links(more, t) == LinksIn([], t) + Links(nodes, t);
    }
    NoLinks(nodes, ino);
  }

  function Cutting<T>(s: seq<T>, i: nat): seq<T>
    requires i < |s|
  {
    s[..i] + s[i + 1..]
  }

  lemma LeaveCounted(root: Inode, inodes: seq<Inode>, nodes: seq<Node>, i: nat)
    requires |inodes| == |nodes| && Counted(root, inodes, nodes) && i < |inodes| && nodes[i].entries == []
    ensures Counted(root, Cutting(inodes, i), Cutting(nodes, i))
  {
    var fewer, rest := Cutting(inodes, i), Cutting(nodes, i);
    forall k | 0 <= k < |fewer| ensures rest[k].count == References(root, rest, fewer[k]) {
      var j := if k < i then k else k + 1;
      assert rest[k] == nodes[j] && fewer[k] == inodes[j];
      LinksDrop(nodes, i, inodes[j]);
    }
  }

  lemma LeaveClosed(root: Inode, inodes: seq<Inode>, nodes: seq<Node>, i: nat)
    requires |inodes| == |nodes| && Counted(root, inodes, nodes) && Closed(inodes, nodes)
    requires i < |inodes| && nodes[i].count == 0
    ensures Closed(Cutting(inodes, i), Cutting(nodes, i))
  {
    var fewer, rest := Cutting(inodes, i), Cutting(nodes, i);
    forall k, j | 0 <= k < |rest| && 0 <= j < |rest[k].entries| ensures rest[k].entries[j].target in fewer {
      var k' := if k < i then k else k + 1;
      assert rest[k] == nodes[k'];
      LinkCounts(nodes, k', j);
      StillIn(inodes, i, nodes[k'].entries[j].target);
    }
  }

  lemma StillIn<T>(s: seq<T>, i: nat, x: T)
    requires i < |s| && x in s && s[i] != x
    ensures x in Cutting(s, i)
  {
    var m :| 0 <= m < |s| && s[m] == x;
    assert Cutting(s, i)[if m < i then m else m - 1] == x;
  }

  lemma LeaveDistinct(inodes: seq<Inode>, i: nat)
    requires i < |inodes| && Distinct(inodes)
    ensures Distinct(Cutting(inodes, i))
  {
    var fewer := Cutting(inodes, i);
    assert forall k :: 0 <= k < |fewer| ==> fewer[k] == inodes[if k < i then k else k + 1];
  }

  /** An unreferenced inode without entries leaves. */
  lemma LeaveInode(root: Inode, inodes: seq<Inode>, nodes: seq<Node>, i: nat)
    requires Consistent(root, inodes, nodes)
    requires i < |inodes| && nodes[i].count == 0 && nodes[i].entries == []
    ensures Consistent(root, Cutting(inodes, i), Cutting(nodes, i))
  {
    LeaveCounted(root, inodes, nodes, i);
    LeaveClosed(root, inodes, nodes, i);
    LeaveDistinct(inodes, i);
    StillIn(inodes, i, root);
  }

  /** Freeing an unreferenced inode keeps every count exact only if it has no entries: the targets
      of its entries would keep a count that nothing accounts for. */
  lemma LeaveNeedsNoEntries(root: Inode, inodes: seq<Inode>, nodes: seq<Node>, i: nat)
    requires Consistent(root, inodes, nodes) && i < |inodes| && nodes[i].count == 0
    ensures Consistent(root, Cutting(inodes, i), Cutting(nodes, i)) <==> nodes[i].entries == []
  {
    if nodes[i].entries == [] {
      LeaveInode(root, inodes, nodes, i);
    } else {
      var fewer, rest := Cutting(inodes, i), Cutting(nodes, i);
      var t := nodes[i].entries[0].target;
      LinkCounts(nodes, i, 0);
      var m :| 0 <= m < |inodes| && inodes[m] == t;
      LinksDrop(nodes, i, t);
      EntryCounts(nodes[i].entries, 0);
      var m' := if m < i then m else m - 1;
      assert fewer[m'] == t && rest[m'] == nodes[m];
    }
  }

  /** A graph with another count for inode t and another list of entries for inode p. */
  ghost function Changed(nodes: seq<Node>, p: nat, es: seq<Dentry>, t: nat, delta: int): (r: seq<Node>)
    requires p < |nodes| && t < |nodes|
    ensures |r| == |nodes|
    ensures forall i :: 0 <= i < |r| ==> r[i].count == nodes[i].count + if i == t then delta else 0
    ensures forall i :: 0 <= i < |r| ==> r[i].entries == if i == p then es else nodes[i].entries
    ensures forall i :: 0 <= i < |r| ==> r[i].isDir == nodes[i].isDir
  {
    var counted := nodes[t := nodes[t].(count := nodes[t].count + delta)];
    counted[p := counted[p].(entries := es)]
  }

  lemma ChangedLinks(nodes: seq<Node>, p: nat, es: seq<Dentry>, t: nat, delta: int, x: Inode)
    requires p < |nodes| && t < |nodes|
    ensures Links(Changed(nodes, p, es, t, delta), x) == Links(nodes, x) - LinksIn(nodes[p].entries, x) + LinksIn(es, x)
  {
    var counted := nodes[t := nodes[t].(count := nodes[t].count + delta)];
    LinksUpdate(nodes, t, counted[t], x);
    LinksUpdate(counted, p, counted[p].(entries := es), x);
  }

  lemma RelinkCounted(root: Inode, inodes: seq<Inode>, nodes: seq<Node>, p: nat, es: seq<Dentry>, t: nat, delta: int)
    requires |inodes| == |nodes| && Distinct(inodes) && Counted(root, inodes, nodes)
    requires p < |nodes| && t < |nodes|
    requires forall x :: x in inodes ==>
               LinksIn(es, x) == LinksIn(nodes[p].entries, x) + if x == inodes[t] then delta else 0
    ensures Counted(root, inodes, Changed(nodes, p, es, t, delta))
  {
    var linked := Changed(nodes, p, es, t, delta);
    forall i | 0 <= i < |inodes| ensures linked[i].count == References(root, linked, inodes[i]) {
      ChangedLinks(nodes, p, es, t, delta, inodes[i]);
    }
  }

  lemma RelinkClosed(inodes: seq<Inode>, nodes: seq<Node>, p: nat, es: seq<Dentry>, t: nat, delta: int)
    requires Closed(inodes, nodes) && p < |nodes| && t < |nodes|
    requires forall j :: 0 <= j < |es| ==> es[j].target in inodes
    ensures Closed(inodes, Changed(nodes, p, es, t, delta))
  {
    var linked := Changed(nodes, p, es, t, delta);
    forall i, j | 0 <= i < |linked| && 0 <= j < |linked[i].entries| ensures linked[i].entries[j].target in inodes {
      assert linked[i].entries == if i == p then es else nodes[i].entries;
    }
  }

  /** One list of entries and one count change together. */
  lemma Relink(root: Inode, inodes: seq<Inode>, nodes: seq<Node>, p: nat, es: seq<Dentry>, t: nat, delta: int)
    requires Consistent(root, inodes, nodes)
    requires p < |nodes| && t < |nodes|
    requires forall j :: 0 <= j < |es| ==> es[j].target in inodes
    requires forall x :: x in inodes ==>
               LinksIn(es, x) == LinksIn(nodes[p].entries, x) + if x == inodes[t] then delta else 0
    ensures Consistent(root, inodes, Changed(nodes, p, es, t, delta))
  {
    RelinkCounted(root, inodes, nodes, p, es, t, delta);
    RelinkClosed(inodes, nodes, p, es, t, delta);
  }

  /** A new entry for inode t at the front of the list of inode p. */
  lemma AddEntry(root: Inode, inodes: seq<Inode>, nodes: seq<Node>, p: nat, d: Dentry, t: nat)
    requires Consistent(root, inodes, nodes)
    requires p < |nodes| && t < |nodes| && d.target == inodes[t]
    ensures Consistent(root, inodes, Changed(nodes, p, [d] + nodes[p].entries, t, 1))
  {
    var es := [d] + nodes[p].entries;
    assert es[1..] == nodes[p].entries;
    assert forall j :: 0 < j < |es| ==> es[j] == nodes[p].entries[j - 1];
    Relink(root, inodes, nodes, p, es, t, 1);
  }

  /** Entry j of inode p is unlinked from inode t. */
  lemma DropEntry(root: Inode, inodes: seq<Inode>, nodes: seq<Node>, p: nat, j: nat, t: nat)
    requires Consistent(root, inodes, nodes)
    requires p < |nodes| && t < |nodes| && j < |nodes[p].entries| && nodes[p].entries[j].target == inodes[t]
    ensures
      Consistent(root, inodes, Changed(nodes, p, nodes[p].entries[..j] + nodes[p].entries[j + 1..], t, -1))
  {
    var es := nodes[p].entries[..j] + nodes[p].entries[j + 1..];
    forall x | x in inodes
      ensures LinksIn(es, x) == LinksIn(nodes[p].entries, x) + if x == inodes[t] then -1 else 0
    {
      LinksInDrop(nodes[p].entries, j, x);
    }
    forall k | 0 <= k < |es| ensures es[k].target in inodes {
      assert es[k] == nodes[p].entries[if k < j then k else k + 1];
    }
    Relink(root, inodes, nodes, p, es, t, -1);
  }

  // ---------- the superblock and its operations

  /** struct initramfs_superblock.  Its list of inodes holds exactly those that are not freed. */
  class Superblock {
    const root: Inode
    var inodes: seq<Inode>

    ghost function Nodes(): (ns: seq<Node>)
      reads this, inodes
      ensures |ns| == |inodes|
      ensures forall i :: 0 <= i < |inodes| ==> ns[i] == Node(inodes[i].entries, inodes[i].dentryCount, inodes[i].isDir)
    {
      seq(|inodes|, i requires 0 <= i < |inodes| reads this, inodes =>
        Node(inodes[i].entries, inodes[i].dentryCount, inodes[i].isDir))
    }

    /** Counts are exact and no entry targets a freed inode. */
    ghost predicate Exact()
      reads this, inodes
    {
      Consistent(root, inodes, Nodes())
    }

    /** Between operations every inode is also referred to. */
    ghost predicate Valid()
      reads this, inodes
    {
      Exact() && AllCounted(Nodes())
    }

    /** Only directories have entries. */
    ghost predicate Tidy()
      reads this, inodes
    {
      OnlyDirsHaveEntries(Nodes())
    }

    constructor (root: Inode)
      requires root.isDir && root.entries == [] && root.dentryCount == 1
      ensures this.root == root && inodes == [root] && Valid() && Tidy()
    {
      this.root := root;
      inodes := [root];
      new;
      assert Nodes() == [Node([], 1, true)];
      assert Links([Node([], 1, true)], root) == LinksIn([], root) + Links([], root);
    }

    /** initramfs_create_empty_inode; `memory` says whether the allocation succeeds. */
    method CreateEmptyInode(memory: bool) returns (ino: Inode?)
      requires Exact()
      modifies this
      ensures Exact()
      ensures ino == null <==> !memory
      ensures ino == null ==> inodes == old(inodes)
      ensures ino != null ==>
                fresh(ino) && inodes == [ino] + old(inodes) && !ino.isDir && ino.entries == [] && ino.dentryCount == 0
    {
      if !memory {
        return null;
      }
      ino := new Inode();
      JoinInode(root, inodes, Nodes(), ino);
      AddFirst(ino);
    }

    /** list_add of a new inode. */
    method AddFirst(ino: Inode)
      requires ino.entries == [] && ino.dentryCount == 0 && !ino.isDir
      modifies this
      ensures inodes == [ino] + old(inodes) && Nodes() == [Node([], 0, false)] + old(Nodes())
    {
      ghost var members, before := inodes, Nodes();
      inodes := [ino] + inodes;
      forall i | 0 <= i < |inodes| ensures Nodes()[i] == ([Node([], 0, false)] + before)[i] {
        assert i > 0 ==> inodes[i] == members[i - 1];
      }
    }

    /** The field updates for a change of one list and one count. */
    method Change(ghost p: nat, parent: Inode, es: seq<Dentry>, ghost t: nat, target: Inode, delta: int)
      requires Distinct(inodes) && p < |inodes| && inodes[p] == parent && t < |inodes| && inodes[t] == target
      modifies parent, target
      ensures inodes == old(inodes) && Nodes() == Changed(old(Nodes()), p, es, t, delta)
      ensures parent.entries == es && target.dentryCount == old(target.dentryCount) + delta
    {
      target.dentryCount := target.dentryCount + delta;
      parent.entries := es;
      forall i | 0 <= i < |inodes| ensures Nodes()[i] == Changed(old(Nodes()), p, es, t, delta)[i] {
        assert i != p ==> inodes[i] != parent;
        assert i != t ==> inodes[i] != target;
      }
    }

    /** The object x is number i in the list of inodes. */
    ghost predicate Has(i: nat, x: Inode)
      reads this
    {
      i < |inodes| && inodes[i] == x
    }

    /** initramfs_create_dentry: a hard link from inode number p to inode number t.  Nothing
        changes when an argument is null or an allocation fails; otherwise the entry is first in
        the parent's list. */
    method CreateDentry(parent: Inode?, target: Inode?, name: Option<string>, memory: bool, ghost p: nat, ghost t: nat)
      returns (d: Dentry?)
      requires Exact()
      requires parent != null ==> Has(p, parent)
      requires target != null ==> Has(t, target)
      modifies if parent == null || target == null then {} else {parent, target}
      ensures Exact() && inodes == old(inodes) && (old(Valid()) ==> Valid())
      ensures old(Tidy()) && (parent != null ==> parent.isDir) ==> Tidy()
      ensures d == null <==> parent == null || target == null || name.None? || !memory
      ensures d == null ==> Nodes() == old(Nodes())
      ensures d != null ==> fresh(d) && d.target == target && name.Some? && d.name == name.value
      ensures d != null ==> Nodes() == Changed(old(Nodes()), p, [d] + old(Nodes())[p].entries, t, 1)
      ensures d != null ==> parent.entries == [d] + old(parent.entries)
      ensures d != null ==> target.dentryCount == old(target.dentryCount) + 1
    {
      if parent == null || name.None? || target == null || !memory {
        return null;
      }
      d := new Dentry(name.value, target);
      AddEntry(root, inodes, Nodes(), p, d, t);
      ghost var before := Nodes();
      assert before[p].entries == parent.entries;
      Change(p, parent, [d] + parent.entries, t, target, 1);
      AddedCounted(before, p, [d] + before[p].entries, t);
      if OnlyDirsHaveEntries(before) && before[p].isDir {
        TidyChanged(before, p, [d] + before[p].entries, t, 1);
      }
    }

    /** The newest inode leaves the list. */
    method DropFirst(ino: Inode, ghost before: seq<Node>, ghost members: seq<Inode>)
      requires inodes == [ino] + members && |members| == |before|
      requires Nodes() == [Node([], 0, false)] + before
      modifies this
      ensures inodes == members && Nodes() == before
    {
      ghost var was, nodes := inodes, Nodes();
      inodes := inodes[1..];
      forall i | 0 <= i < |members| ensures Nodes()[i] == before[i] {
        assert was[i + 1] == members[i] && nodes[i + 1] == before[i];
      }
    }

    /** Lines 220-228: the first entry of the inode that has just been created.  When it cannot
        be made, the inode is taken out of the list and freed. */
    method LinkNewInode(parent: Inode?, ino: Inode, name: Option<string>, memory: bool, ghost p: nat,
                        ghost before: seq<Node>, ghost members: seq<Inode>)
      returns (d: Dentry?)
      requires Exact() && Consistent(root, members, before)
      requires AllCounted(before)
      requires inodes == [ino] + members && Nodes() == [Node([], 0, false)] + before
      requires parent != null ==> p < |members| && members[p] == parent
      modifies this, ino, if parent == null then {} else {parent}
      ensures Exact()
      ensures d == null <==> parent == null || name.None? || !memory
      ensures d == null ==> inodes == members && Nodes() == before
      ensures d != null ==> fresh(d) && d.target == ino && name.Some? && d.name == name.value
      ensures d != null ==> inodes == old(inodes) && Nodes() == Created(before, p, d, false)
      ensures d != null ==> parent.entries == [d] + old(parent.entries)
    {
      ghost var joined := Nodes();
      assert parent != null ==> joined[p + 1] == before[p] && inodes[p + 1] == members[p];
      d := CreateDentry(parent, ino, name, memory, p + 1, 0);
      if d == null {
        DropFirst(ino, before, members);
      } else {
        ChangedIsCreated(before, p, d);
      }
    }

    /** initramfs_create_inode: a file with its first entry, or nothing at all. */
    method CreateFile(parent: Inode?, name: Option<string>, inodeMemory: bool, dentryMemory: bool, ghost p: nat)
      returns (d: Dentry?)
      requires Valid()
      requires parent != null ==> Has(p, parent)
      modifies this, if parent == null then {} else {parent}
      ensures Valid()
      ensures d == null <==> parent == null || name.None? || !inodeMemory || !dentryMemory
      ensures d == null ==> inodes == old(inodes) && Nodes() == old(Nodes())
      ensures d != null ==> fresh(d) && fresh(d.target) && name.Some? && d.name == name.value
      ensures d != null ==> inodes == [d.target] + old(inodes) && Nodes() == Created(old(Nodes()), p, d, false)
      ensures d != null ==> !d.target.isDir && d.target.entries == [] && d.target.dentryCount == 1
      ensures d != null ==> parent.entries == [d] + old(parent.entries)
      ensures old(Tidy()) && (parent != null ==> old(parent.isDir)) ==> Tidy()
    {
      ghost var before, members := Nodes(), inodes;
      var ino := CreateEmptyInode(inodeMemory);
      if ino == null {
        return null;
      }
      assert Nodes() == [Node([], 0, false)] + before;
      d := LinkNewInode(parent, ino, name, dentryMemory, p, before, members);
      if d != null {
        CreatedCounted(before, p, d);
        if OnlyDirsHaveEntries(before) && before[p].isDir {
          TidyCreated(before, p, d, false);
        }
      }
    }

    /** initramfs_create_dir */
    method CreateDir(parent: Inode?, name: Option<string>, inodeMemory: bool, dentryMemory: bool, ghost p: nat)
      returns (d: Dentry?)
      requires Valid()
      requires parent != null ==> Has(p, parent)
      modifies this, if parent == null then {} else {parent}
      ensures Valid()
      ensures d == null <==> parent == null || name.None? || !inodeMemory || !dentryMemory
      ensures d == null ==> inodes == old(inodes) && Nodes() == old(Nodes())
      ensures d != null ==> fresh(d) && fresh(d.target) && name.Some? && d.name == name.value
      ensures d != null ==> inodes == [d.target] + old(inodes) && Nodes() == Created(old(Nodes()), p, d, true)
      ensures d != null ==> d.target.isDir && d.target.entries == [] && d.target.dentryCount == 1
      ensures d != null ==> parent.entries == [d] + old(parent.entries)
      ensures old(Tidy()) && (parent != null ==> old(parent.isDir)) ==> Tidy()
    {
      ghost var before := Nodes();
      d := CreateFile(parent, name, inodeMemory, dentryMemory, p);
      if d != null {
        SetDirectory(d.target);
        MadeIsCreated(before, p, d);
        if OnlyDirsHaveEntries(before) && before[p].isDir {
          TidyCreated(before, p, d, true);
        }
      }
    }

    /** i_mode of the newest inode becomes that of a directory. */
    method SetDirectory(ino: Inode)
      requires Valid() && Has(0, ino)
      modifies ino
      ensures Valid() && inodes == old(inodes) && Nodes() == MadeDir(old(Nodes()), 0)
    {
      ghost var before := Nodes();
      MakeDir(root, inodes, before, 0);
      ino.isDir := true;
      forall i | 0 <= i < |inodes| ensures Nodes()[i] == MadeDir(before, 0)[i] {
        assert i != 0 ==> inodes[i] != ino;
      }
      assert Nodes() == MadeDir(before, 0);
    }

    /** dentry_put, after the entry d has left its list: the count of its target goes down, and
        at zero the target leaves the list of inodes and is freed. */
    method DentryPut(d: Dentry, ghost before: seq<Node>, ghost p: nat, ghost j: nat, ghost t: nat) returns (freed: bool)
      requires Consistent(root, inodes, before) && p < |before| && j < |before[p].entries| && d == before[p].entries[j]
      requires Has(t, d.target)
      requires Nodes() == Changed(before, p, Cut(before, p, j), t, 0)
      requires AllCounted(before)
      modifies this, d.target
      ensures freed <==> before[t].count == 1
      ensures
        var left := Changed(before, p, Cut(before, p, j), t, -1);
        if freed then inodes == old(inodes)[..t] + old(inodes)[t + 1..] && Nodes() == left[..t] + left[t + 1..]
        else inodes == old(inodes) && Nodes() == left
      ensures Exact() <==> !freed || Changed(before, p, Cut(before, p, j), t, -1)[t].entries == []
      ensures d.target.entries == old(d.target.entries) && d.target.dentryCount == old(d.target.dentryCount) - 1
    {
      ghost var left := Changed(before, p, Cut(before, p, j), t, -1);
      DropEntry(root, inodes, before, p, j, t);
      Decrement(d.target, t, before, p, j);
      freed := d.target.dentryCount == 0;
      if freed {
        Release(d.target, t);
      }
    }

    /** list_del of an inode that nothing refers to any more, which is then freed.  Counts stay exact
        exactly when it has no entries. */
    method Release(ino: Inode, ghost t: nat)
      requires Consistent(root, inodes, Nodes()) && Has(t, ino) && ino.dentryCount == 0
      modifies this
      ensures inodes == old(inodes)[..t] + old(inodes)[t + 1..]
      ensures Nodes() == old(Nodes())[..t] + old(Nodes())[t + 1..]
      ensures Consistent(root, inodes, Nodes()) <==> old(Nodes()[t].entries) == []
    {
      LeaveNeedsNoEntries(root, inodes, Nodes(), t);
      Unlist(ino, t);
    }

    method Unlist(ino: Inode, ghost t: nat)
      requires Distinct(inodes) && Has(t, ino)
      modifies this
      ensures inodes == old(inodes)[..t] + old(inodes)[t + 1..]
      ensures Nodes() == old(Nodes())[..t] + old(Nodes())[t + 1..]
    {
      ghost var nodes, members := Nodes(), inodes;
      WithoutAt(inodes, t);
      inodes := Without(inodes, ino);
      forall i | 0 <= i < |inodes| ensures Nodes()[i] == (nodes[..t] + nodes[t + 1..])[i] {
        assert inodes[i] == members[if i < t then i else i + 1];
      }
    }

    /** atomic_dec of one count. */
    method Decrement(ino: Inode, ghost t: nat, ghost before: seq<Node>, ghost p: nat, ghost j: nat)
      requires Distinct(inodes) && Has(t, ino) && |before| == |inodes| && p < |before| && j < |before[p].entries|
      requires Nodes() == Changed(before, p, Cut(before, p, j), t, 0)
      modifies ino
      ensures inodes == old(inodes)
      ensures Nodes() == Changed(before, p, Cut(before, p, j), t, -1)
      ensures ino.entries == old(ino.entries) && ino.dentryCount == old(ino.dentryCount) - 1
    {
      ghost var now := Nodes();
      ino.dentryCount := ino.dentryCount - 1;
      forall i | 0 <= i < |inodes| ensures Nodes()[i] == Changed(before, p, Cut(before, p, j), t, -1)[i] {
        assert now[i] == Changed(before, p, Cut(before, p, j), t, 0)[i];
        assert i != t ==> inodes[i] != ino;
      }
    }

    /** list_del of the entry d, number j of directory number p. */
    method UnlinkEntry(owner: Inode, d: Dentry, ghost p: nat, ghost j: nat, ghost t: nat)
      requires Distinct(inodes) && Has(p, owner) && t < |inodes|
      requires j < |owner.entries| && owner.entries[j] == d && forall k :: 0 <= k < j ==> owner.entries[k] != d
      modifies owner
      ensures inodes == old(inodes)
      ensures Nodes() == Changed(old(Nodes()), p, Cut(old(Nodes()), p, j), t, 0)
      ensures owner.entries == old(owner.entries)[..j] + old(owner.entries)[j + 1..]
      ensures owner.dentryCount == old(owner.dentryCount)
    {
      ghost var before := Nodes();
      WithoutAt(owner.entries, j);
      owner.entries := Without(owner.entries, d);
      forall i | 0 <= i < |inodes| ensures Nodes()[i] == Changed(before, p, Cut(before, p, j), t, 0)[i] {
        assert i != p ==> inodes[i] != owner;
      }
    }

    /** initramfs_delete_dentry: the entry d, number j of inode number p, with target number t.  A
        directory that still has entries is left alone.  Otherwise the entry goes, and its target
        is freed exactly when this was the last reference to it.  The parent that the source asks
        for only names a lock and may be null; `owner` is where the entry is linked. */
    method DeleteDentry(owner: Inode, d: Dentry, ghost p: nat, ghost j: nat, ghost t: nat)
      returns (refused: bool, freed: bool)
      requires Valid() && Has(p, owner) && Has(t, d.target)
      requires j < |owner.entries| && owner.entries[j] == d && forall k :: 0 <= k < j ==> owner.entries[k] != d
      modifies this, owner, d.target
      ensures refused <==> old(d.target.isDir) && old(d.target.entries) != []
      ensures refused ==> !freed && inodes == old(inodes) && Nodes() == old(Nodes())
      ensures !refused ==> (freed <==> old(d.target.dentryCount) == 1)
      ensures !refused ==> owner.entries == old(owner.entries)[..j] + old(owner.entries)[j + 1..]
      ensures !refused ==> d.target.dentryCount == old(d.target.dentryCount) - 1
      ensures
        !refused ==>
          var left := Changed(old(Nodes()), p, Cut(old(Nodes()), p, j), t, -1);
          && (Valid() <==> !freed || left[t].entries == [])
          && if freed then inodes == old(inodes)[..t] + old(inodes)[t + 1..] && Nodes() == left[..t] + left[t + 1..]
             else inodes == old(inodes) && Nodes() == left
      ensures old(Tidy()) ==> Valid() && Tidy()
    {
      if d.target.isDir && d.target.entries != [] {
        return true, false;
      }
      refused := false;
      ghost var before := Nodes();
      UnlinkEntry(owner, d, p, j, t);
      freed := DentryPut(d, before, p, j, t);
      StillReferred(before, p, j, t);
      if OnlyDirsHaveEntries(before) {
        TidyDeleted(before, p, j, t);
      }
    }

    /** initramfs_lookup: the first entry with the name, if dir is a directory. */
    method Lookup(dir: Inode?, name: string) returns (d: Dentry?)
      ensures dir == null || !dir.isDir ==> d == null
      ensures dir != null && dir.isDir ==>
                if d == null then forall k :: 0 <= k < |dir.entries| ==> dir.entries[k].name != name
                else exists j :: 0 <= j < |dir.entries| && dir.entries[j] == d && d.name == name
                       && forall k :: 0 <= k < j ==> dir.entries[k].name != name
    {
      if dir == null || !dir.isDir {
        return null;
      }
      var j := 0;
      while j < |dir.entries|
        invariant 0 <= j <= |dir.entries|
        invariant forall k :: 0 <= k < j ==> dir.entries[k].name != name
      {
        if dir.entries[j].name == name {
          return dir.entries[j];
        }
        j := j + 1;
      }
      d := null;
    }
  }

  /** Directory number p without its entry j. */
  ghost function Cut(nodes: seq<Node>, p: nat, j: nat): seq<Dentry>
    requires p < |nodes| && j < |nodes[p].entries|
  {
    nodes[p].entries[..j] + nodes[p].entries[j + 1..]
  }

  /** Taking out an entry leaves a reference to everything but an inode with only that one. */
  lemma StillReferred(before: seq<Node>, p: nat, j: nat, t: nat)
    requires p < |before| && j < |before[p].entries| && t < |before|
    requires AllCounted(before)
    ensures
      var left := Changed(before, p, Cut(before, p, j), t, -1);
      && (before[t].count > 1 ==> AllCounted(left))
      && AllCounted(left[..t] + left[t + 1..])
  {
    var left := Changed(before, p, Cut(before, p, j), t, -1);
    var rest := left[..t] + left[t + 1..];
    forall i | 0 <= i < |rest| ensures rest[i].count >= 1 {
      assert rest[i] == left[if i < t then i else i + 1];
    }
  }

  lemma AddedCounted(nodes: seq<Node>, p: nat, es: seq<Dentry>, t: nat)
    requires p < |nodes| && t < |nodes|
    ensures AllCounted(nodes) ==> AllCounted(Changed(nodes, p, es, t, 1))
  {
    var more := Changed(nodes, p, es, t, 1);
    if AllCounted(nodes) {
      forall i | 0 <= i < |more| ensures more[i].count >= 1 {
        assert nodes[i].count >= 1;
      }
    }
  }

  lemma TidyChanged(nodes: seq<Node>, p: nat, es: seq<Dentry>, t: nat, delta: int)
    requires OnlyDirsHaveEntries(nodes) && p < |nodes| && t < |nodes| && nodes[p].isDir
    ensures OnlyDirsHaveEntries(Changed(nodes, p, es, t, delta))
  {
    var linked := Changed(nodes, p, es, t, delta);
    forall i | 0 <= i < |linked| && !linked[i].isDir ensures linked[i].entries == [] {
      assert linked[i].isDir == nodes[i].isDir;
    }
  }

  /** While only directories have entries, an inode that is freed has none. */
  lemma TidyDeleted(before: seq<Node>, p: nat, j: nat, t: nat)
    requires OnlyDirsHaveEntries(before) && p < |before| && j < |before[p].entries| && t < |before|
    requires before[t].isDir ==> before[t].entries == []
    ensures
      var left := Changed(before, p, Cut(before, p, j), t, -1);
      && left[t].entries == []
      && OnlyDirsHaveEntries(left) && OnlyDirsHaveEntries(left[..t] + left[t + 1..])
  {
    var left := Changed(before, p, Cut(before, p, j), t, -1);
    TidyChanged(before, p, Cut(before, p, j), t, -1);
    assert before[t].entries == [];
    var rest := left[..t] + left[t + 1..];
    forall i | 0 <= i < |rest| && !rest[i].isDir ensures rest[i].entries == [] {
      assert rest[i] == left[if i < t then i else i + 1];
    }
  }

  lemma TidyCreated(nodes: seq<Node>, p: nat, d: Dentry, isDir: bool)
    requires OnlyDirsHaveEntries(nodes) && p < |nodes| && nodes[p].isDir
    ensures OnlyDirsHaveEntries(Created(nodes, p, d, isDir))
  {
    var more := Created(nodes, p, d, isDir);
    forall i | 0 <= i < |more| && !more[i].isDir ensures more[i].entries == [] {
      assert i > 0 ==> more[i].isDir == nodes[i - 1].isDir;
      assert i > 0 ==> i - 1 != p && more[i].entries == nodes[i - 1].entries;
    }
  }

  /** A new inode with one link from the front of directory number p. */
  ghost function Created(nodes: seq<Node>, p: nat, d: Dentry, isDir: bool): (r: seq<Node>)
    requires p < |nodes|
  {
    [Node([], 1, isDir)] + nodes[p := nodes[p].(entries := [d] + nodes[p].entries)]
  }

  lemma CreatedCounted(nodes: seq<Node>, p: nat, d: Dentry)
    requires p < |nodes| && AllCounted(nodes)
    ensures AllCounted(Created(nodes, p, d, false))
  {
    var more := Created(nodes, p, d, false);
    forall i | 0 <= i < |more| ensures more[i].count >= 1 {
      assert i > 0 ==> more[i].count == nodes[i - 1].count;
    }
  }

  lemma ChangedIsCreated(before: seq<Node>, p: nat, d: Dentry)
    requires p < |before|
    ensures
      Changed([Node([], 0, false)] + before, p + 1, [d] + before[p].entries, 0, 1) == Created(before, p, d, false)
  {
  }

  ghost function MadeDir(nodes: seq<Node>, i: nat): seq<Node>
    requires i < |nodes|
  {
    nodes[i := nodes[i].(isDir := true)]
  }

  /** Becoming a directory changes neither counts nor entries. */
  lemma MakeDir(root: Inode, inodes: seq<Inode>, nodes: seq<Node>, i: nat)
    requires Consistent(root, inodes, nodes) && i < |nodes|
    ensures Consistent(root, inodes, MadeDir(nodes, i))
  {
    var made := MadeDir(nodes, i);
    forall x: Inode ensures Links(made, x) == Links(nodes, x) {
      LinksUpdate(nodes, i, made[i], x);
    }
  }

  lemma MadeIsCreated(nodes: seq<Node>, p: nat, d: Dentry)
    requires p < |nodes|
    ensures MadeDir(Created(nodes, p, d, false), 0) == Created(nodes, p, d, true)
  {
  }

  /** initramfs_superblock_create: a superblock whose only inode is its root, a new directory, or
      null when an allocation fails. */
  method CreateSuperblock(memory: bool, inodeMemory: bool) returns (sb: Superblock?)
    ensures sb == null <==> !memory || !inodeMemory
    ensures sb != null ==> fresh(sb) && fresh(sb.root) && sb.root.isDir && sb.root.entries == []
    ensures sb != null ==> sb.Valid() && sb.Tidy() && sb.inodes == [sb.root]
  {
    if !memory || !inodeMemory {
      return null;
    }
    var root := new Inode();
    root.isDir := true;
    root.dentryCount := root.dentryCount + 1;
    sb := new Superblock(root);
  }

  // ---------- every run

  /** An operation; inodes and entries are named by their places in the lists. */
  datatype FsOp =
    | File(dir: nat, name: string, inodeMemory: bool, dentryMemory: bool)
    | Directory(dir: nat, name: string, inodeMemory: bool, dentryMemory: bool)
    | HardLink(dir: nat, target: nat, name: string, memory: bool)
    | Remove(dir: nat, entry: nat)

  /** The place where an entry occurs first. */
  lemma {:induction false} FirstPlace<T>(xs: seq<T>, i: nat) returns (j: nat)
    requires i < |xs|
    ensures j <= i && xs[j] == xs[i] && forall k :: 0 <= k < j ==> xs[k] != xs[j]
  {
    j := i;
    if k: nat :| k < i && xs[k] == xs[i] {
      j := FirstPlace(xs, k);
    }
  }

  /** Taking out the entry at place e of directory number p. */
  method RemoveAt(sb: Superblock, p: nat, e: nat)
    requires sb.Valid() && sb.Tidy() && p < |sb.inodes| && e < |sb.inodes[p].entries|
    modifies sb, sb.inodes
    ensures sb.Valid() && sb.Tidy()
    ensures forall x :: x in sb.inodes ==> x in old(sb.inodes)
  {
    var owner := sb.inodes[p];
    var d := owner.entries[e];
    ghost var j := FirstPlace(owner.entries, e);
    assert sb.Nodes()[p].entries[e].target in sb.inodes;
    ghost var t :| 0 <= t < |sb.inodes| && sb.inodes[t] == d.target;
    ghost var was := sb.inodes;
    var refused, freed := sb.DeleteDentry(owner, d, p, j, t);
    StillMembers(was, t, sb.inodes);
  }

  lemma StillMembers<T>(was: seq<T>, t: nat, now: seq<T>)
    requires t < |was| && (now == was || now == was[..t] + was[t + 1..])
    ensures forall x :: x in now ==> x in was
  {
  }

  /** One operation on a superblock; the parent of a new entry is a directory, as the VFS sees to. */
  method Apply(sb: Superblock, op: FsOp)
    requires sb.Valid() && sb.Tidy()
    modifies sb, sb.inodes
    ensures sb.Valid() && sb.Tidy()
    ensures forall x :: x in sb.inodes ==> x in old(sb.inodes) || fresh(x)
  {
    if op.dir >= |sb.inodes| || !sb.inodes[op.dir].isDir {
      return;
    }
    var parent := sb.inodes[op.dir];
    match op {
      case File(p, name, m, m') => var d := sb.CreateFile(parent, Some(name), m, m', p);
      case Directory(p, name, m, m') => var d := sb.CreateDir(parent, Some(name), m, m', p);
      case HardLink(p, t, name, m) =>
        if t < |sb.inodes| {
          var d := sb.CreateDentry(parent, sb.inodes[t], Some(name), m, p, t);
        }
      case Remove(p, e) =>
        if e < |parent.entries| {
          RemoveAt(sb, p, e);
        }
    }
  }

  /** Any run of creations, hard links and deletions from a new superblock keeps every reference count
      exact, every inode referred to, and entries in directories alone. */
  method Run(memory: bool, inodeMemory: bool, ops: seq<FsOp>) returns (sb: Superblock?)
    ensures sb == null <==> !memory || !inodeMemory
    ensures sb != null ==> fresh(sb) && sb.Valid() && sb.Tidy()
  {
    sb := CreateSuperblock(memory, inodeMemory);
    if sb == null {
      return;
    }
    for i := 0 to |ops|
      invariant fresh(sb) && sb.Valid() && sb.Tidy()
      invariant forall k :: 0 <= k < |sb.inodes| ==> fresh(sb.inodes[k])
    {
      Apply(sb, ops[i]);
      assert forall k :: 0 <= k < |sb.inodes| ==> sb.inodes[k] in sb.inodes;
    }
  }

  /** A file f in the root with an entry g of its own: when f is deleted, the target of g keeps a
      count that nothing accounts for. */
  method FreedWithEntries() returns (sb: Superblock)
    ensures fresh(sb) && !sb.Valid()
  {
    sb := CreateSuperblock(true, true);
    var root := sb.root;
    var f := sb.CreateFile(root, Some("f"), true, true, 0);
    var file := f.target;
    assert sb.inodes == [file, root];
    ghost var first := sb.Nodes();
    assert first[0] == Node([], 1, false) && first[1].entries == [f] + [];
    var g := sb.CreateFile(file, Some("g"), true, true, 0);
    ghost var second := sb.Nodes();
    assert sb.inodes == [g.target, file, root];
    assert second[1] == Node([g], 1, false) && second[2].entries == [f];
    var refused, freed := sb.DeleteDentry(root, f, 2, 0, 1);
  }
}
