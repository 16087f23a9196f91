/** lib/time_loop.c: the ring of tasks that the round-robin scheduler walks. */
module TimeLoop {
  class Task {
    const priority: int
    var node: TaskNode?

    constructor (priority: int)
      ensures this.priority == priority && node == null
    {
      this.priority, node := priority, null;
    }
  }

  /** struct task_node */
  class TaskNode {
    const task: Task
    const priority: int
    var next: TaskNode?
    var priv: TaskNode?

    constructor (task: Task)
      ensures this.task == task && priority == task.priority && next == null && priv == null
    {
      this.task, priority, next, priv := task, task.priority, null, null;
    }
  }

  function After(i: int, n: int): int {
    if i + 1 == n then 0 else i + 1
  }

  function Before(i: int, n: int): int {
    if i == 0 then n - 1 else i - 1
  }

  ghost predicate Distinct(ring: seq<TaskNode>) {
    forall i, j :: 0 <= i < j < |ring| ==> ring[i] != ring[j]
  }

  /** The nodes form one doubly linked cycle in this order. */
  ghost predicate Linked(ring: seq<TaskNode>)
    reads ring
  {
    && Distinct(ring)
    && (forall i {:trigger ring[i].next} :: 0 <= i < |ring| ==> ring[i].next == ring[After(i, |ring|)])
    && (forall i {:trigger ring[i].priv} :: 0 <= i < |ring| ==> ring[i].priv == ring[Before(i, |ring|)])
  }

  // ---------- where a task is put

  /** The first number that does not exceed q. */
  function First(ps: seq<int>, q: int): (k: nat)
    ensures k <= |ps|
    ensures forall j :: 0 <= j < k ==> ps[j] > q
    ensures k < |ps| ==> ps[k] <= q
  {
    if ps == [] || ps[0] <= q then 0 else 1 + First(ps[1..], q)
  }

  /** The place of a new node: behind every node when the head does not exceed it. */
  function Place(ps: seq<int>, q: int): (p: nat)
    requires ps != []
    ensures 0 < p <= |ps|
    ensures q >= ps[0] ==> p == |ps|
    ensures q < ps[0] ==> (forall j :: 0 <= j < p ==> q < ps[j]) && (p < |ps| ==> ps[p] <= q)
  {
    if ps[0] <= q then |ps| else First(ps, q)
  }

  function Inserted<T>(s: seq<T>, p: nat, x: T): seq<T>
    requires p <= |s|
  {
    s[..p] + [x] + s[p..]
  }

  ghost function Priorities(ring: seq<TaskNode>): (ps: seq<int>)
    ensures |ps| == |ring| && forall i :: 0 <= i < |ps| ==> ps[i] == ring[i].priority
  {
    seq(|ring|, i requires 0 <= i < |ring| => ring[i].priority)
  }

  ghost predicate Descending(ps: seq<int>) {
    forall i, j :: 0 <= i < j < |ps| ==> ps[i] >= ps[j]
  }

  /** A ring in descending order stays so exactly when the new task is below the head, or equal to
      the last: the head itself is never replaced. */
  lemma OrderExactly(ps: seq<int>, q: int)
    requires ps != [] && Descending(ps)
    ensures Descending(Inserted(ps, Place(ps, q), q)) <==> q < ps[0] || q == ps[|ps| - 1]
  {
    var p := Place(ps, q);
    var more := Inserted(ps, p, q);
    if q >= ps[0] {
      assert more[p - 1] == ps[|ps| - 1] && more[p] == q;
    }
    forall i, j | 0 <= i < j < |more| && (q < ps[0] || q == ps[|ps| - 1]) ensures more[i] >= more[j] {
      assert more[i] == if i < p then ps[i] else if i == p then q else ps[i - 1];
      assert more[j] == if j < p then ps[j] else if j == p then q else ps[j - 1];
    }
  }

  // ---------- the pool

  /** struct task_pool_1; `ring` lists the nodes from the head on. */
  class TaskPool {
    var head: TaskNode?
    ghost var ring: seq<TaskNode>

    ghost predicate Valid()
      reads this, ring
    {
      Linked(ring) && HeadIsFirst()
    }

    ghost predicate HeadIsFirst()
      reads this
    {
      if ring == [] then head == null else head == ring[0]
    }

    ghost function Tasks(): (ts: seq<Task>)
      reads this
      ensures |ts| == |ring| && forall i :: 0 <= i < |ring| ==> ts[i] == ring[i].task
    {
      seq(|ring|, i requires 0 <= i < |ring| reads this => ring[i].task)
    }

    /** Every task in the ring knows its node, which has its priority. */
    ghost predicate Backed()
      reads this, set x | x in ring :: x.task
    {
      forall x :: x in ring ==> x.task.node == x && x.priority == x.task.priority
    }

    /** alloc_new_pool */
    constructor ()
      ensures Valid() && ring == []
    {
      head, ring := null, [];
    }

    /** time_loop: the task after the current one, or the head's; i is the place of the current
        task's node. */
    method TimeLoop(current: Task?, ghost i: nat) returns (next: Task)
      requires Valid() && ring != []
      requires current != null ==> i < |ring| && current.node == ring[i]
      ensures next == if current == null then ring[0].task else ring[After(i, |ring|)].task
    {
      if current == null {
        return head.task;
      }
      next := current.node.next.task;
    }

    /** Lines 57-60: the links of a new node before n. */
    method Splice(n: TaskNode, node: TaskNode, ghost p: nat)
      requires Linked(ring) && node !in ring && 0 < p <= |ring| && n == ring[Spot(p, |ring|)]
      modifies ring, node
      ensures Spliced(ring, p, node)
    {
      assert n.priv == ring[p - 1];
      node.next := n;
      node.priv := n.priv;
      n.priv.next := node;
      n.priv := node;
    }

    /** The new node goes before n. */
    method InsertBefore(n: TaskNode, node: TaskNode, ghost p: nat)
      requires Valid() && node !in ring && 0 < p <= |ring| && n == ring[Spot(p, |ring|)]
      modifies this`ring, ring, node
      ensures ring == Inserted(old(ring), p, node) && Valid()
    {
      Splice(n, node, p);
      SplicedIsLinked(ring, p, node);
      ring := Inserted(ring, p, node);
    }

    /** Lines 50-56: the first node from the head on that does not exceed the new priority, or the
        head again. */
    method FindSpot(q: int) returns (n: TaskNode)
      requires Valid() && ring != []
      ensures n == ring[Spot(Place(Priorities(ring), q), |ring|)]
    {
      n := head;
      ghost var j := 0;
      while n.priority > q
        invariant 0 <= j < |ring| && n == ring[j]
        invariant forall i :: 0 <= i < j ==> ring[i].priority > q
        decreases |ring| - j
      {
        n := n.next;
        j := j + 1;
        if n == head {
          break;
        }
      }
    }

    /** add_task_to_task_pool; `memory` says whether the allocation succeeds. */
    method AddTask(task: Task, memory: bool) returns (ok: bool)
      requires Valid()
      modifies this, ring, task
      ensures Valid() && ok == memory
      ensures !ok ==> ring == old(ring) && task.node == old(task.node)
      ensures ok ==> task.node != null && fresh(task.node) && task.node.task == task
      ensures ok && old(ring) == [] ==> ring == [task.node]
      ensures old(Backed()) && (forall x :: x in old(ring) ==> x.task != task) ==> Backed()
      ensures ok && old(ring) != [] ==>
                ring == Inserted(old(ring), Place(Priorities(old(ring)), task.priority), task.node)
    {
      if !memory {
        return false;
      }
      var node := new TaskNode(task);
      task.node := node;
      AddNode(node);
      ok := true;
    }

    /** Lines 42-61: the new node joins the ring. */
    method AddNode(node: TaskNode)
      requires Valid() && node !in ring
      modifies this, ring, node
      ensures Valid() && forall x :: x in ring ==> x == node || x in old(ring)
      ensures
        ring == if old(ring) == [] then [node]
                else Inserted(old(ring), Place(Priorities(old(ring)), node.priority), node)
    {
      if head == null {
        head, ring := node, [node];
        node.next := node;
        node.priv := node;
      } else {
        var n := FindSpot(node.priority);
        InsertBefore(n, node, Place(Priorities(ring), node.priority));
      }
    }

    /** Lines 71-72: the neighbours of a node are linked to each other. */
    method Unlink(node: TaskNode, ghost j: nat)
      requires Linked(ring) && j < |ring| && node == ring[j]
      modifies ring
      ensures Cut(ring, j)
    {
      assert node.priv == ring[Before(j, |ring|)] && node.next == ring[After(j, |ring|)];
      node.priv.next := node.next;
      node.next.priv := node.priv;
    }

    /** remove_task_from_pool; j is the place of the task's node.  The rest stays a cycle, but the
        pool keeps its head only when another node was removed. */
    method RemoveTask(task: Task, ghost j: nat)
      requires Valid() && j < |ring| && task.node == ring[j]
      modifies this`ring, ring, task
      ensures ring == old(ring)[..j] + old(ring)[j + 1..] && Linked(ring) && task.node == null
      ensures HeadIsFirst() <==> j != 0
      ensures old(Backed()) ==> Backed()
    {
      Unlink(task.node, j);
      HeadAfter(j);
      CutIsLinked(ring, j);
      ring := ring[..j] + ring[j + 1..];
      task.node := null;
    }

    /** The tasks that n successive picks choose, each the current one for the next. */
    ghost function Turns(t: Task, i: nat, n: nat): seq<Task>
      requires Valid() && Backed() && i < |ring| && t == ring[i].task
      reads this, ring, set x | x in ring :: x.task
      decreases n
    {
      if n == 0 then [] else
        var u := t.node.next.task;
        [u] + Turns(u, After(i, |ring|), n - 1)
    }

    lemma {:induction false} TurnsGoRound(t: Task, i: nat, n: nat)
      requires Valid() && Backed() && i < |ring| && t == ring[i].task && n <= |ring|
      ensures Turns(t, i, n) == (Tasks() + Tasks())[i + 1..i + 1 + n]
      decreases n
    {
      if n > 0 {
        var u := t.node.next.task;
        var k := After(i, |ring|);
        assert u == Tasks()[k];
        TurnsGoRound(u, k, n - 1);
        Wrap(Tasks(), i, n);
        assert Turns(t, i, n) == [u] + Turns(u, k, n - 1);
      }
    }

    /** Round robin: from any current task, as many picks as there are tasks choose each of them
        exactly once, the current one last. */
    lemma EachOnce(t: Task, i: nat)
      requires Valid() && Backed() && i < |ring| && t == ring[i].task
      ensures Turns(t, i, |ring|) == Tasks()[i + 1..] + Tasks()[..i + 1]
      ensures multiset(Turns(t, i, |ring|)) == multiset(Tasks())
    {
      var ts := Tasks();
      TurnsGoRound(t, i, |ring|);
      assert (ts + ts)[i + 1..i + 1 + |ring|] == ts[i + 1..] + ts[..i + 1];
      assert ts == ts[..i + 1] + ts[i + 1..];
    }

    lemma HeadAfter(j: nat)
      requires Distinct(ring) && HeadIsFirst() && j < |ring|
      ensures
        var rest := ring[..j] + ring[j + 1..];
        (if rest == [] then head == null else head == rest[0]) <==> j != 0
    {
    }
  }

  /** Going on past the end is starting again. */
  lemma Wrap<T>(ts: seq<T>, i: nat, n: nat)
    requires i < |ts| && 0 < n <= |ts|
    ensures
      var k := After(i, |ts|);
      (ts + ts)[i + 1..i + 1 + n] == [ts[k]] + (ts + ts)[k + 1..k + n]
  {
    var k, twice := After(i, |ts|), ts + ts;
    var a, b := twice[i + 1..i + 1 + n], [ts[k]] + twice[k + 1..k + n];
    forall x | 0 <= x < n ensures a[x] == b[x] {
      TwiceAt(ts, i + 1 + x);
      TwiceAt(ts, k + x);
      assert b[x] == if x == 0 then ts[k] else twice[k + x];
    }
  }

  lemma TwiceAt<T>(ts: seq<T>, j: nat)
    requires j < 2 * |ts|
    ensures (ts + ts)[j] == if j < |ts| then ts[j] else ts[j - |ts|]
  {
  }

  // ---------- one node more or less

  /** The node that a new one goes before, when its place is p of k. */
  function Spot(p: int, k: int): int {
    if p == k then 0 else p
  }

  /** The links after lines 57-60, in terms of the ring before. */
  ghost predicate Spliced(was: seq<TaskNode>, p: nat, node: TaskNode)
    requires 0 < p <= |was|
    reads was, node
  {
    && node.next == was[Spot(p, |was|)] && node.priv == was[p - 1]
    && (forall j {:trigger was[j].next} :: 0 <= j < |was| ==>
          was[j].next == if j == p - 1 then node else was[After(j, |was|)])
    && (forall j {:trigger was[j].priv} :: 0 <= j < |was| ==>
          was[j].priv == if j == Spot(p, |was|) then node else was[Before(j, |was|)])
  }

  function At<T>(s: seq<T>, p: nat, x: T, i: int): T
    requires p <= |s| && 0 <= i <= |s|
  {
    if i < p then s[i] else if i == p then x else s[i - 1]
  }

  lemma InsertedAt<T>(s: seq<T>, p: nat, x: T)
    requires p <= |s|
    ensures forall i :: 0 <= i <= |s| ==> Inserted(s, p, x)[i] == At(s, p, x, i)
  {
  }

  lemma NextAt(was: seq<TaskNode>, p: nat, node: TaskNode, i: nat)
    requires 0 < p <= |was| && i <= |was| && Spliced(was, p, node)
    ensures At(was, p, node, i).next == At(was, p, node, After(i, |was| + 1))
  {
  }

  lemma PrivAt(was: seq<TaskNode>, p: nat, node: TaskNode, i: nat)
    requires 0 < p <= |was| && i <= |was| && Spliced(was, p, node)
    ensures At(was, p, node, i).priv == At(was, p, node, Before(i, |was| + 1))
  {
  }

  lemma InsertedDistinct(was: seq<TaskNode>, p: nat, node: TaskNode)
    requires p <= |was| && Distinct(was) && node !in was
    ensures Distinct(Inserted(was, p, node))
  {
  }

  lemma SplicedIsLinked(was: seq<TaskNode>, p: nat, node: TaskNode)
    requires 0 < p <= |was| && Distinct(was) && node !in was && Spliced(was, p, node)
    ensures Linked(Inserted(was, p, node))
  {
    var ring := Inserted(was, p, node);
    InsertedDistinct(was, p, node);
    InsertedAt(was, p, node);
    forall i | 0 <= i < |ring|
      ensures ring[i].next == ring[After(i, |ring|)] && ring[i].priv == ring[Before(i, |ring|)]
    {
      NextAt(was, p, node, i);
      PrivAt(was, p, node, i);
    }
  }

  /** The links after lines 71-72, in terms of the ring before. */
  ghost predicate Cut(was: seq<TaskNode>, j: nat)
    requires j < |was|
    reads was
  {
    var k := |was|;
    && (forall i {:trigger was[i].next} :: 0 <= i < k && i != j ==>
          was[i].next == was[After(if i == Before(j, k) then j else i, k)])
    && (forall i {:trigger was[i].priv} :: 0 <= i < k && i != j ==>
          was[i].priv == was[Before(if i == After(j, k) then j else i, k)])
  }

  /** Where element i of the rest stood, when element j is gone. */
  function Old(i: int, j: int): int {
    if i < j then i else i + 1
  }

  lemma CutAt(was: seq<TaskNode>, j: nat, i: nat)
    requires j < |was| && i + 1 < |was| && Cut(was, j)
    ensures was[Old(i, j)].next == was[Old(After(i, |was| - 1), j)]
    ensures was[Old(i, j)].priv == was[Old(Before(i, |was| - 1), j)]
  {
  }

  lemma RestDistinct(was: seq<TaskNode>, j: nat, rest: seq<TaskNode>)
    requires j < |was| && Distinct(was) && |rest| == |was| - 1
    requires forall i :: 0 <= i < |rest| ==> rest[i] == was[Old(i, j)]
    ensures Distinct(rest)
  {
  }

  lemma CutIsLinked(was: seq<TaskNode>, j: nat)
    requires j < |was| && Distinct(was) && Cut(was, j)
    ensures Linked(was[..j] + was[j + 1..])
  {
    var ring := was[..j] + was[j + 1..];
    assert forall i :: 0 <= i < |ring| ==> ring[i] == was[Old(i, j)];
    RestDistinct(was, j, ring);
    forall i | 0 <= i < |ring|
      ensures ring[i].next == ring[After(i, |ring|)] && ring[i].priv == ring[Before(i, |ring|)]
    {
      CutAt(was, j, i);
      assert ring[After(i, |ring|)] == was[Old(After(i, |ring|), j)];
      assert ring[Before(i, |ring|)] == was[Old(Before(i, |ring|), j)];
    }
  }

  // ---------- every run

  datatype PoolOp = Add(task: Task, memory: bool) | Drop(task: Task)

  function TaskPriorities(ts: seq<Task>): (ps: seq<int>)
    ensures |ps| == |ts| && forall i :: 0 <= i < |ps| ==> ps[i] == ts[i].priority
  {
    seq(|ts|, i requires 0 <= i < |ts| => ts[i].priority)
  }

  /** A list without the first occurrence of x. */
  ghost function Without(ts: seq<Task>, x: Task): seq<Task> {
    if ts == [] then [] else if ts[0] == x then ts[1..] else [ts[0]] + Without(ts[1..], x)
  }

  lemma {:induction false} WithoutAt(ts: seq<Task>, j: nat)
    requires j < |ts| && forall i :: 0 <= i < j ==> ts[i] != ts[j]
    ensures Without(ts, ts[j]) == ts[..j] + ts[j + 1..]
  {
    if j > 0 {
      WithoutAt(ts[1..], j - 1);
      assert ts[..j] == [ts[0]] + ts[1..][..j - 1];
    }
  }

  /** The tasks of the ring after one operation. */
  ghost function Step(ts: seq<Task>, op: PoolOp): seq<Task> {
    match op
    case Add(x, memory) =>
      if !memory then ts else if ts == [] then [x] else Inserted(ts, Place(TaskPriorities(ts), x.priority), x)
    case Drop(x) => Without(ts, x)
  }

  /** A task is added only while it is not in the ring, and removed only while it is there behind
      the head, which the source never updates. */
  ghost predicate Allowed(ts: seq<Task>, op: PoolOp) {
    match op
    case Add(x, _) => x !in ts
    case Drop(x) => x in ts && ts[0] != x
  }

  ghost function Steps(ts: seq<Task>, ops: seq<PoolOp>): seq<Task>
    decreases |ops|
  {
    if ops == [] then ts else Steps(Step(ts, ops[0]), ops[1..])
  }

  ghost predicate AllAllowed(ts: seq<Task>, ops: seq<PoolOp>)
    decreases |ops|
  {
    ops == [] || (Allowed(ts, ops[0]) && AllAllowed(Step(ts, ops[0]), ops[1..]))
  }

  /** The tasks that were added and have not been removed since. */
  ghost function Members(s: set<Task>, ops: seq<PoolOp>): set<Task>
    decreases |ops|
  {
    if ops == [] then s
    else if ops[0].Drop? then Members(s - {ops[0].task}, ops[1..])
    else if ops[0].memory then Members(s + {ops[0].task}, ops[1..])
    else Members(s, ops[1..])
  }

  ghost predicate AllDifferent(ts: seq<Task>) {
    forall i, j :: 0 <= i < j < |ts| ==> ts[i] != ts[j]
  }

  ghost function Elements(ts: seq<Task>): set<Task> {
    set x | x in ts
  }

  lemma InsertMembers(ts: seq<Task>, p: nat, x: Task)
    requires AllDifferent(ts) && p <= |ts| && x !in ts
    ensures AllDifferent(Inserted(ts, p, x)) && Elements(Inserted(ts, p, x)) == Elements(ts) + {x}
  {
    var us := Inserted(ts, p, x);
    InsertedAt(ts, p, x);
    forall i, j | 0 <= i < j < |us| ensures us[i] != us[j] {
      assert us[i] == At(ts, p, x, i) && us[j] == At(ts, p, x, j);
    }
    assert ts == ts[..p] + ts[p..];
    assert Elements(us) == Elements(ts[..p]) + {x} + Elements(ts[p..]);
  }

  lemma {:induction false} WithoutMembers(ts: seq<Task>, x: Task)
    requires AllDifferent(ts)
    ensures AllDifferent(Without(ts, x)) && Elements(Without(ts, x)) == Elements(ts) - {x}
  {
    if ts != [] {
      assert ts == [ts[0]] + ts[1..];
      assert Elements(ts) == {ts[0]} + Elements(ts[1..]);
      forall i | 0 <= i < |ts[1..]| ensures ts[0] != ts[1..][i] {
      }
      WithoutMembers(ts[1..], x);
      if ts[0] != x {
        var rest := Without(ts[1..], x);
        forall i | 0 <= i < |rest| ensures ts[0] != rest[i] {
          assert rest[i] in Elements(rest);
        }
        assert Without(ts, x)[0] == ts[0] && Without(ts, x)[1..] == rest;
        assert Elements(Without(ts, x)) == {ts[0]} + Elements(rest);
      }
    }
  }

  lemma StepMembers(ts: seq<Task>, op: PoolOp)
    requires AllDifferent(ts) && Allowed(ts, op)
    ensures AllDifferent(Step(ts, op))
    ensures Elements(Step(ts, op)) == Members(Elements(ts), [op])
  {
    assert [op][1..] == [];
    if op.Drop? {
      WithoutMembers(ts, op.task);
    } else if op.memory {
      var p := if ts == [] then 0 else Place(TaskPriorities(ts), op.task.priority);
      InsertMembers(ts, p, op.task);
      assert Step(ts, op) == Inserted(ts, p, op.task);
    }
  }

  /** After any run the ring holds exactly the tasks that were added and not removed, each once. */
  lemma {:induction false} StepsMembers(ts: seq<Task>, ops: seq<PoolOp>)
    requires AllDifferent(ts) && AllAllowed(ts, ops)
    ensures AllDifferent(Steps(ts, ops))
    ensures Elements(Steps(ts, ops)) == Members(Elements(ts), ops)
    decreases |ops|
  {
    if ops != [] {
      assert [ops[0]][1..] == [];
      StepMembers(ts, ops[0]);
      StepsMembers(Step(ts, ops[0]), ops[1..]);
    }
  }

  lemma PrioritiesAgree(pool: TaskPool)
    requires pool.Backed()
    ensures Priorities(pool.ring) == TaskPriorities(pool.Tasks())
  {
    var ps, qs := Priorities(pool.ring), TaskPriorities(pool.Tasks());
    forall i | 0 <= i < |ps| ensures ps[i] == qs[i] {
      assert pool.ring[i] in pool.ring;
    }
  }

  /** The place of a task in the ring. */
  lemma PlaceOf(pool: TaskPool, x: Task) returns (j: nat)
    requires pool.Valid() && pool.Backed() && x in pool.Tasks()
    ensures j < |pool.ring| && x.node == pool.ring[j] && pool.Tasks()[j] == x
    ensures forall i :: 0 <= i < j ==> pool.Tasks()[i] != x
  {
    j :| 0 <= j < |pool.Tasks()| && pool.Tasks()[j] == x;
    assert pool.ring[j] in pool.ring;
    forall i | 0 <= i < j ensures pool.Tasks()[i] != x {
      assert pool.ring[i] in pool.ring;
    }
  }

  method AddOp(pool: TaskPool, x: Task, memory: bool)
    requires pool.Valid() && pool.Backed() && x !in pool.Tasks()
    modifies pool, pool.ring, x
    ensures pool.Valid() && pool.Backed() && pool.Tasks() == Step(old(pool.Tasks()), Add(x, memory))
    ensures forall n :: n in pool.ring ==> n in old(pool.ring) || fresh(n)
  {
    ghost var ring, ts := pool.ring, pool.Tasks();
    PrioritiesAgree(pool);
    forall n | n in ring ensures n.task != x {
      var j :| 0 <= j < |ring| && ring[j] == n;
      assert ts[j] == n.task;
    }
    var ok := pool.AddTask(x, memory);
    if ok && ring != [] {
      TasksInserted(pool, ring, ts, Place(TaskPriorities(ts), x.priority), x.node);
    }
  }

  lemma TasksInserted(pool: TaskPool, ring: seq<TaskNode>, ts: seq<Task>, p: nat, n: TaskNode)
    requires p <= |ring| == |ts| && forall i :: 0 <= i < |ts| ==> ts[i] == ring[i].task
    requires pool.ring == Inserted(ring, p, n)
    ensures pool.Tasks() == Inserted(ts, p, n.task)
  {
    InsertedAt(ring, p, n);
    InsertedAt(ts, p, n.task);
    forall i | 0 <= i <= |ts| ensures pool.Tasks()[i] == Inserted(ts, p, n.task)[i] {
      assert pool.ring[i] == At(ring, p, n, i);
    }
  }

  method DropOp(pool: TaskPool, x: Task)
    requires pool.Valid() && pool.Backed() && x in pool.Tasks() && pool.Tasks()[0] != x
    modifies pool, pool.ring, x
    ensures pool.Valid() && pool.Backed() && pool.Tasks() == Step(old(pool.Tasks()), Drop(x))
    ensures forall n :: n in pool.ring ==> n in old(pool.ring)
  {
    ghost var ring, ts := pool.ring, pool.Tasks();
    ghost var j := PlaceOf(pool, x);
    WithoutAt(ts, j);
    pool.RemoveTask(x, j);
    TasksWithout(pool, ring, ts, j, Without(ts, x));
  }

  lemma TasksWithout(pool: TaskPool, ring: seq<TaskNode>, ts: seq<Task>, j: nat, rest: seq<Task>)
    requires |ts| == |ring| && j < |ring| && forall i :: 0 <= i < |ring| ==> ts[i] == ring[i].task
    requires pool.ring == ring[..j] + ring[j + 1..] && rest == ts[..j] + ts[j + 1..]
    ensures pool.Tasks() == rest && forall n :: n in pool.ring ==> n in ring
  {
    forall i | 0 <= i < |pool.ring| ensures pool.Tasks()[i] == rest[i] && pool.ring[i] in ring {
      assert pool.ring[i] == ring[Old(i, j)];
    }
  }

  /** One operation on a pool. */
  method ApplyOp(pool: TaskPool, op: PoolOp)
    requires pool.Valid() && pool.Backed() && Allowed(pool.Tasks(), op)
    modifies pool, pool.ring, op.task
    ensures pool.Valid() && pool.Backed() && pool.Tasks() == Step(old(pool.Tasks()), op)
    ensures forall n :: n in pool.ring ==> n in old(pool.ring) || fresh(n)
  {
    match op {
      case Add(x, memory) => AddOp(pool, x, memory);
      case Drop(x) => DropOp(pool, x);
    }
  }

  /** Any run of additions and removals from a new pool: the ring stays a cycle with the pool's head
      in front, and holds the tasks that the operations leave, in the order that the priorities ask for. */
  method Run(ops: seq<PoolOp>) returns (pool: TaskPool)
    requires AllAllowed([], ops)
    modifies set i | 0 <= i < |ops| :: ops[i].task
    ensures fresh(pool) && pool.Valid() && pool.Backed()
    ensures pool.Tasks() == Steps([], ops) && AllDifferent(pool.Tasks())
    ensures Elements(pool.Tasks()) == Members({}, ops)
  {
    StepsMembers([], ops);
    assert Elements([]) == {};
    pool := new TaskPool();
    assert pool.Tasks() == [] && ops[0..] == ops;
    for i := 0 to |ops|
      invariant fresh(pool) && pool.Valid() && pool.Backed()
      invariant forall k :: 0 <= k < |pool.ring| ==> fresh(pool.ring[k])
      invariant AllAllowed(pool.Tasks(), ops[i..])
      invariant Steps(pool.Tasks(), ops[i..]) == Steps([], ops)
    {
      assert ops[i..][0] == ops[i] && ops[i..][1..] == ops[i + 1..];
      ApplyOp(pool, ops[i]);
      assert forall k :: 0 <= k < |pool.ring| ==> pool.ring[k] in pool.ring;
    }
    assert ops[|ops|..] == [];
  }
}
