/** Handing due tasks to the thread pool: the inner loop of ActionScheduler::ThreadFunction
    (src/action_scheduler.cpp:121-148), the loop of TickThreadFn (src/tickthread.c:57-68) and
    NativeActor::QueueAction (src/nativeactor.cpp:150-166), on top of the heap and the pool
    allocator. */
module Dispatch {
  import opened Arith
  import opened MinHeap
  import opened PoolAlloc

  ghost predicate Ascending(due: seq<Node>) {
    forall i, j :: 0 <= i < j < |due| ==> AtMost(due[i].key, due[j].key)
  }

  /** due lists exactly the entries whose key has come, in nondecreasing key order, each once. */
  ghost predicate DueBatch(queue: multiset<Node>, now: Timespec, due: seq<Node>) {
    && multiset(due) <= queue
    && Ascending(due)
    && (forall e :: e in due ==> AtMost(e.key, now))
    && (forall e :: e in queue - multiset(due) ==> !AtMost(e.key, now))
  }

  /** The due entries do not depend on how ties are broken. */
  lemma DueBatchIsExact(queue: multiset<Node>, now: Timespec, due: seq<Node>, e: Node)
    requires DueBatch(queue, now, due)
    ensures multiset(due)[e] == if AtMost(e.key, now) then queue[e] else 0
  {
    if AtMost(e.key, now) {
      assert e !in queue - multiset(due);
    } else {
      assert e !in due;
    }
  }

  /** The same in nanoseconds: exactly the entries whose time is not after now, earliest first. */
  ghost predicate DueByClock(queue: multiset<Node>, now: Timespec, due: seq<Node>) {
    && (forall e {:trigger queue[e]} {:trigger multiset(due)[e]} ::
          multiset(due)[e] == if Nanos(e.key) <= Nanos(now) then queue[e] else 0)
    && (forall i, j :: 0 <= i < j < |due| ==> Nanos(due[i].key) <= Nanos(due[j].key))
  }

  ghost predicate WholeSeconds(queue: multiset<Node>) {
    forall e :: e in queue ==> e.key.nsec == 0
  }

  ghost predicate NormalKeys(queue: multiset<Node>) {
    forall e :: e in queue ==> IsNormal(e.key)
  }

  lemma DueBatchByClock(queue: multiset<Node>, now: Timespec, due: seq<Node>)
    requires DueBatch(queue, now, due) && NormalKeys(queue) && IsNormal(now)
    ensures DueByClock(queue, now, due)
  {
    forall e
      ensures multiset(due)[e] == if Nanos(e.key) <= Nanos(now) then queue[e] else 0
    {
      DueBatchIsExact(queue, now, due, e);
      if e in queue { ComparesTimes(e.key, now); }
    }
    forall i, j | 0 <= i < j < |due|
      ensures Nanos(due[i].key) <= Nanos(due[j].key)
    {
      assert due[i] in multiset(due) && due[j] in multiset(due);
      ComparesTimes(due[i].key, due[j].key);
    }
  }

  lemma AscendingCons(least: Node, rest: seq<Node>)
    requires Ascending(rest) && forall e :: e in rest ==> AtMost(least.key, e.key)
    ensures Ascending([least] + rest)
  {
    var due := [least] + rest;
    forall i, j | 0 <= i < j < |due| ensures AtMost(due[i].key, due[j].key) {
      assert due[j] == rest[j - 1];
      if i > 0 { assert due[i] == rest[i - 1]; }
    }
  }

  lemma DueBatchCons(queue: multiset<Node>, now: Timespec, least: Node, rest: seq<Node>)
    requires IsLeast(least, queue) && AtMost(least.key, now) && DueBatch(queue - multiset{least}, now, rest)
    ensures DueBatch(queue, now, [least] + rest)
  {
    assert multiset([least] + rest) == multiset{least} + multiset(rest);
    assert queue - multiset([least] + rest) == (queue - multiset{least}) - multiset(rest);
    forall e | e in rest ensures AtMost(least.key, e.key) {
      assert e in multiset(rest);
    }
    AscendingCons(least, rest);
  }

  /** Every queue has one. */
  lemma {:induction false} DueBatchExists(queue: multiset<Node>, now: Timespec) returns (due: seq<Node>)
    ensures DueBatch(queue, now, due)
    decreases |queue|
  {
    due := [];
    if queue != multiset{} {
      var least := LeastExists(queue);
      if AtMost(least.key, now) {
        var rest := DueBatchExists(queue - multiset{least}, now);
        DueBatchCons(queue, now, least, rest);
        due := [least] + rest;
      }
    }
  }

  /** The fields of a ThreadTask. */
  datatype Task = Task(taskfn: nat, args: nat, releasefn: nat)

  ghost predicate OneNodePerSlot(queue: multiset<Node>) {
    && (forall e :: e in queue ==> queue[e] == 1)
    && (forall e, f :: e in queue && f in queue && e.data == f.data ==> e == f)
  }

  ghost function Slots(due: seq<Node>): set<nat> {
    set e | e in due :: e.data
  }

  /** Every queued node sits in a slot of its own that has been handed out. */
  ghost predicate SlotsHeld(queue: multiset<Node>, out: set<nat>, fields: map<nat, Task>) {
    && OneNodePerSlot(queue)
    && forall e :: e in queue ==> e.data in out && e.data in fields
  }

  ghost predicate NoneIsDue(queue: multiset<Node>, now: Timespec) {
    forall e :: e in queue ==> !AtMost(e.key, now)
  }

  /** due came in order, none too early, and everything left comes later. */
  ghost predicate InOrder(left: multiset<Node>, due: seq<Node>, now: Timespec) {
    && Ascending(due)
    && (forall i :: 0 <= i < |due| ==> AtMost(due[i].key, now))
    && (forall i, e :: 0 <= i < |due| && e in left ==> AtMost(due[i].key, e.key))
  }

  /** The tasks handed to the thread pool are the fields of the nodes in due. */
  ghost predicate HandedFields(due: seq<Node>, handed: seq<Task>, fields: map<nat, Task>) {
    && |handed| == |due|
    && forall k :: 0 <= k < |due| ==> due[k].data in fields && handed[k] == fields[due[k].data]
  }

  /** What both dispatch loops keep: what was extracted and what is left make up the queue, and
      the slots extracted are back in the pool. */
  ghost predicate Progress(left: multiset<Node>, out: set<nat>, queue: multiset<Node>, out0: set<nat>,
                           fields: map<nat, Task>, now: Timespec, due: seq<Node>, handed: seq<Task>) {
    && SlotsHeld(left, out, fields)
    && left + multiset(due) == queue
    && InOrder(left, due, now)
    && out == out0 - Slots(due)
    && HandedFields(due, handed, fields)
  }

  lemma OrderStep(left: multiset<Node>, due: seq<Node>, now: Timespec, least: Node)
    requires InOrder(left, due, now) && IsLeast(least, left) && AtMost(least.key, now)
    ensures InOrder(left - multiset{least}, due + [least], now)
  {
  }

  lemma SumStep(left: multiset<Node>, due: seq<Node>, least: Node)
    requires least in left
    ensures (left - multiset{least}) + multiset(due + [least]) == left + multiset(due)
  {
  }

  lemma SlotsStep(due: seq<Node>, least: Node)
    ensures Slots(due + [least]) == Slots(due) + {least.data}
  {
    assert least in due + [least];
    assert forall d :: d in due + [least] <==> d in due || d == least;
  }

  lemma HeldStep(left: multiset<Node>, out: set<nat>, fields: map<nat, Task>, least: Node)
    requires SlotsHeld(left, out, fields) && least in left
    ensures SlotsHeld(left - multiset{least}, out - {least.data}, fields)
  {
    forall e | e in left - multiset{least}
      ensures e in left && e.data != least.data
    {
    }
  }

  lemma OneMoreHeld(queue: multiset<Node>, out: set<nat>, fields: map<nat, Task>, node: Node, task: Task)
    requires SlotsHeld(queue, out, fields) && node.data !in out
    ensures SlotsHeld(queue + multiset{node}, out + {node.data}, fields[node.data := task])
  {
    assert forall e :: e in queue + multiset{node} ==> e in queue || e == node;
  }

  lemma ProgressStep(left: multiset<Node>, out: set<nat>, queue: multiset<Node>, out0: set<nat>,
                     fields: map<nat, Task>, now: Timespec, due: seq<Node>, handed: seq<Task>, least: Node)
    requires Progress(left, out, queue, out0, fields, now, due, handed)
    requires IsLeast(least, left) && AtMost(least.key, now)
    ensures least.data in out && least.data in fields
    ensures Progress(left - multiset{least}, out - {least.data}, queue, out0, fields, now,
                     due + [least], handed + [fields[least.data]])
  {
    OrderStep(left, due, now, least);
    SumStep(left, due, least);
    SlotsStep(due, least);
    HeldStep(left, out, fields, least);
    assert out - {least.data} == out0 - (Slots(due) + {least.data});
  }

  /** When the loop stops, the least entry left is not due, so none is. */
  lemma ProgressEnds(left: multiset<Node>, queue: multiset<Node>, now: Timespec, due: seq<Node>)
    requires left + multiset(due) == queue && InOrder(left, due, now)
    requires NoneIsDue(left, now)
    ensures DueBatch(queue, now, due) && left == queue - multiset(due)
  {
    assert left == queue - multiset(due);
  }

  /** A heap of task nodes that live in slots of a pool: an actor's action queue with the pool
      of its MemoryPool that serves ThreadTask blocks, or the server's timed queue. */
  class TaskQueue {
    const heap: Heap
    const pool: AllocPool
    var fields: map<nat, Task>

    ghost predicate Valid()
      reads this, heap, heap.nodes, pool
    {
      heap.Valid() && pool.Valid() && SlotsHeld(heap.Contents(), pool.out, fields)
    }

    constructor (initial: nat, poolSize: nat)
      requires initial * 2 < HALF32 && 0 < poolSize
      ensures Valid() && fresh(heap) && fresh(heap.nodes) && fresh(pool)
      ensures heap.Contents() == multiset{} && pool.out == {}
    {
      heap := new Heap(initial);
      pool := new AllocPool(poolSize, 24);
      fields := map[];
    }

    /** NativeActor::QueueAction up to UnlockQueue (src/nativeactor.cpp:150-167). */
    method QueueAction(task: Task, ts: Timespec) returns (slot: nat)
      requires Valid()
      requires heap.len < HALF32
      modifies this, heap, heap.nodes, pool
      ensures Valid() && (heap.nodes == old(heap.nodes) || fresh(heap.nodes))
      ensures slot !in old(pool.out) && pool.out == old(pool.out) + {slot}
      ensures heap.Contents() == old(heap.Contents()) + multiset{Node(ts, slot)}
      ensures fields == old(fields)[slot := task]
    {
      hide SlotsHeld, IsHeap;
      ghost var before, out := heap.Contents(), pool.out;
      slot := pool.Take();
      pool.Overwrite(slot, task.taskfn);
      OneMoreHeld(before, out, fields, Node(ts, slot), task);
      fields := fields[slot := task];
      heap.MinInsert(ts, slot);
    }

    /** One round of either loop: extract the least task, hand its fields over, free its slot. */
    method HandOffLeast(now: Timespec, handed: seq<Task>, ghost queue: multiset<Node>, ghost out: set<nat>,
                        ghost due: seq<Node>)
        returns (handed': seq<Task>, ghost due': seq<Node>)
      requires Valid() && Progress(heap.Contents(), pool.out, queue, out, fields, now, due, handed)
      requires heap.len > 0 && AtMost(heap.nodes[0].key, now)
      modifies heap, heap.nodes, pool
      ensures Valid() && Progress(heap.Contents(), pool.out, queue, out, fields, now, due', handed')
      ensures heap.len == old(heap.len) - 1 && (heap.nodes == old(heap.nodes) || fresh(heap.nodes))
    {
      RootIsLeastOfContents(heap.Live());
      ghost var least := heap.nodes[0];
      ProgressStep(heap.Contents(), pool.out, queue, out, fields, now, due, handed, least);
      var slot := heap.ExtractMin();
      handed' := handed + [fields[slot]];
      due' := due + [least];
      pool.Return(slot);
    }

    /** If the root is not due, nothing is. */
    lemma NoneDue(now: Timespec)
      requires heap.Valid() && (heap.len > 0 ==> !AtMost(heap.nodes[0].key, now))
      ensures NoneIsDue(heap.Contents(), now)
    {
      if heap.len > 0 { RootIsLeastOfContents(heap.Live()); }
    }

    /** src/action_scheduler.cpp:121-148, under the actor's queue lock. */
    method DispatchActor(now: Timespec) returns (handed: seq<Task>, ghost due: seq<Node>)
      requires Valid()
      modifies heap, heap.nodes, pool
      ensures Valid() && (heap.nodes == old(heap.nodes) || fresh(heap.nodes))
      ensures DueBatch(old(heap.Contents()), now, due)
      ensures NormalKeys(old(heap.Contents())) && IsNormal(now) ==> DueByClock(old(heap.Contents()), now, due)
      ensures heap.Contents() == old(heap.Contents()) - multiset(due)
      ensures pool.out == old(pool.out) - Slots(due)
      ensures HandedFields(due, handed, fields)
    {
      hide DueByClock, NormalKeys;
      handed, due := [], [];
      ghost var queue, out := heap.Contents(), pool.out;
      while heap.len > 0
        invariant heap.nodes == old(heap.nodes) || fresh(heap.nodes)
        invariant Valid() && Progress(heap.Contents(), pool.out, queue, out, fields, now, due, handed)
        decreases heap.len
      {
        var delay := heap.MinKey();
        if CmpTs(now, delay) >= 0 {
          handed, due := HandOffLeast(now, handed, queue, out, due);
        } else {
          break;
        }
      }
      NoneDue(now);
      ProgressEnds(heap.Contents(), queue, now, due);
      if NormalKeys(queue) && IsNormal(now) { DueBatchByClock(queue, now, due); }
    }

    lemma RootIsWhole(queue: multiset<Node>, due: seq<Node>)
      requires heap.Valid() && WholeSeconds(queue) && heap.Contents() + multiset(due) == queue
      ensures heap.len > 0 ==> heap.nodes[0].key.nsec == 0
    {
      if heap.len > 0 { RootIsLeastOfContents(heap.Live()); }
    }

    /** One round of the tick thread's loop (src/tickthread.c:58-67): the test, and the hand-off if
        it holds.  `queue` is what the queue was, with keys of whole seconds. */
    method TimedRound(curtime: int, handed: seq<Task>, ghost queue: multiset<Node>, ghost out: set<nat>,
                      ghost due: seq<Node>)
        returns (go: bool, handed': seq<Task>, ghost due': seq<Node>)
      requires Valid() && WholeSeconds(queue)
      requires Progress(heap.Contents(), pool.out, queue, out, fields, Timespec(curtime, 0), due, handed)
      modifies heap, heap.nodes, pool
      ensures Valid() && (heap.nodes == old(heap.nodes) || fresh(heap.nodes))
      ensures Progress(heap.Contents(), pool.out, queue, out, fields, Timespec(curtime, 0), due', handed')
      ensures go ==> heap.len < old(heap.len)
      ensures !go ==> NoneIsDue(heap.Contents(), Timespec(curtime, 0))
    {
      RootIsWhole(queue, due);
      go, handed', due' := heap.len > 0 && curtime >= heap.nodes[0].key.sec, handed, due;
      if go {
        handed', due' := HandOffLeast(Timespec(curtime, 0), handed, queue, out, due);
      } else {
        NoneDue(Timespec(curtime, 0));
      }
    }

    /** src/tickthread.c:57-68, under the timed queue's lock.  Keys are whole seconds. */
    method DispatchTimed(curtime: int) returns (handed: seq<Task>, ghost due: seq<Node>)
      requires Valid()
      requires WholeSeconds(heap.Contents())
      modifies heap, heap.nodes, pool
      ensures Valid() && (heap.nodes == old(heap.nodes) || fresh(heap.nodes))
      ensures DueBatch(old(heap.Contents()), Timespec(curtime, 0), due)
      ensures DueByClock(old(heap.Contents()), Timespec(curtime, 0), due)
      ensures heap.Contents() == old(heap.Contents()) - multiset(due)
      ensures pool.out == old(pool.out) - Slots(due)
      ensures HandedFields(due, handed, fields)
    {
      handed, due := [], [];
      ghost var queue, out, now := heap.Contents(), pool.out, Timespec(curtime, 0);
      var go := true;
      while go
        invariant heap.nodes == old(heap.nodes) || fresh(heap.nodes)
        invariant Valid() && Progress(heap.Contents(), pool.out, queue, out, fields, now, due, handed)
        invariant !go ==> NoneIsDue(heap.Contents(), now)
        decreases go, heap.len
      {
        go, handed, due := TimedRound(curtime, handed, queue, out, due);
      }
      ProgressEnds(heap.Contents(), queue, now, due);
      DueBatchByClock(queue, now, due);
    }
  }

  // ---------- the account of whole runs ----------

  /** A task handed to the thread pool, and the timestamp of the pass that did it. */
  datatype Handoff = Handoff(task: Node, now: Timespec)

  ghost function Handoffs(due: seq<Node>, now: Timespec): seq<Handoff> {
    seq(|due|, k requires 0 <= k < |due| => Handoff(due[k], now))
  }

  ghost predicate IsHanded(handed: seq<Handoff>, id: nat) {
    exists i :: 0 <= i < |handed| && handed[i].task.data == id
  }

  ghost predicate OnceEach(queue: multiset<Node>) {
    forall e :: e in queue ==> queue[e] == 1
  }

  ghost predicate HandedOnce(handed: seq<Handoff>, next: nat) {
    && (forall i :: 0 <= i < |handed| ==> handed[i].task.data < next)
    && (forall i, j :: 0 <= i < j < |handed| ==> handed[i].task.data != handed[j].task.data)
  }

  /** Handing off new call numbers, each once, keeps every number handed off once. */
  lemma AppendKeepsHandedOnce(handed: seq<Handoff>, due: seq<Node>, now: Timespec, next: nat)
    requires HandedOnce(handed, next)
    requires forall k :: 0 <= k < |due| ==> due[k].data < next && !IsHanded(handed, due[k].data)
    requires forall i, j :: 0 <= i < j < |due| ==> due[i].data != due[j].data
    ensures HandedOnce(handed + Handoffs(due, now), next)
  {
    var h := handed + Handoffs(due, now);
    forall i, j | 0 <= i < j < |h|
      ensures h[i].task.data != h[j].task.data
    {
      if |handed| <= j {
        assert h[j].task == due[j - |handed|];
        if i < |handed| { assert h[i] == handed[i]; } else { assert h[i].task == due[i - |handed|]; }
      }
    }
  }

  lemma HandedConcat(handed: seq<Handoff>, due: seq<Node>, now: Timespec, id: nat)
    ensures IsHanded(handed + Handoffs(due, now), id) <==>
      IsHanded(handed, id) || exists k :: 0 <= k < |due| && due[k].data == id
  {
    var all := handed + Handoffs(due, now);
    if i :| 0 <= i < |handed| && handed[i].task.data == id { assert all[i].task.data == id; }
    if k :| 0 <= k < |due| && due[k].data == id { assert all[|handed| + k].task.data == id; }
    if i :| 0 <= i < |all| && all[i].task.data == id {
      if |handed| <= i { assert due[i - |handed|].data == id; }
    }
  }

  lemma CountedTwice(due: seq<Node>, i: nat, j: nat)
    requires i < j < |due| && due[i] == due[j]
    ensures multiset(due)[due[i]] >= 2
  {
    var rest := due[..i] + due[i + 1..];
    assert due == due[..i] + [due[i]] + due[i + 1..];
    assert multiset(due) == multiset(rest) + multiset{due[i]};
    assert rest[j - 1] == due[j];
    assert due[j] in multiset(rest);
  }

  lemma DueOnce(queue: multiset<Node>, due: seq<Node>)
    requires multiset(due) <= queue && OnceEach(queue)
    ensures forall i, j :: 0 <= i < j < |due| ==> due[i] != due[j]
    ensures OnceEach(queue - multiset(due))
    ensures forall e :: e in queue - multiset(due) <==> e in queue && e !in due
  {
    forall i, j | 0 <= i < j < |due|
      ensures due[i] != due[j]
    {
      if due[i] == due[j] { CountedTwice(due, i, j); }
    }
    forall e
      ensures e in queue - multiset(due) <==> e in queue && e !in due
    {
      assert e in due <==> multiset(due)[e] > 0;
    }
  }
}
