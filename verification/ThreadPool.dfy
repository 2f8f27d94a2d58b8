/** The worker pool of src/threadpool.c while it is running, as a step system.  A step is a
    region under one lock (the queue mutex or the pool mutex) or the unlocked work between two
    regions; any thread may take the next step, so a run is any interleaving. */
module ThreadPool {
  import opened MinHeap
  import opened PoolAlloc

  /** The fields of a ThreadTask: a number for the call that added it, and whether `taskfn` is
      non-null. */
  datatype Task = Task(id: nat, runnable: bool)

  datatype Worker =
    | Ready                   // about to take the queue mutex
    | Waiting                 // in pthread_cond_wait
    | Holding(node: nat)      // extracted a task, not run yet
    | Finished(node: nat)     // ran it, node not freed yet

  datatype Producer =
    | Idle
    | Allocated(node: nat)                  // inside CreateTask
    | Created(node: nat, priority: int)     // about to insert
    | Inserted                              // queue mutex released, signal pending

  datatype State = State(
    pool: Pool, out: set<nat>,     // alloc_pool, and the nodes it has handed out
    fields: map<nat, Task>,        // what the task nodes hold
    queue: multiset<Node>,         // prio_queue
    workers: seq<Worker>, producers: seq<Producer>,
    next: nat,                     // number of the next added task
    log: seq<Task>)                // tasks workers have dealt with, in order

  datatype Action =
    | ProducerAlloc(p: nat)
    | ProducerFill(p: nat, runnable: bool, priority: int, firstWord: nat)
    | ProducerInsert(p: nat)
    | ProducerSignal(p: nat, w: nat)
    | WorkerCheck(w: nat, e: Node)
    | WorkerWakes(w: nat)
    | WorkerRuns(w: nat)
    | WorkerFrees(w: nat)

  ghost predicate AnyWaiting(s: State) {
    exists w :: 0 <= w < |s.workers| && s.workers[w].Waiting?
  }

  /** Whether the thread named by the action is at that point of the code. */
  ghost predicate Enabled(s: State, a: Action) {
    match a
    case ProducerAlloc(p) => p < |s.producers| && s.producers[p].Idle? && s.pool.head < |s.pool.memory|
    case ProducerFill(p, _, _, _) =>
      p < |s.producers| && s.producers[p].Allocated? && s.producers[p].node < |s.pool.memory|
    case ProducerInsert(p) => p < |s.producers| && s.producers[p].Created?
    case ProducerSignal(p, w) =>
      && p < |s.producers| && s.producers[p].Inserted?
      && (AnyWaiting(s) ==> w < |s.workers| && s.workers[w].Waiting?)
    case WorkerCheck(w, e) =>
      w < |s.workers| && s.workers[w].Ready? && (s.queue == multiset{} || IsLeast(e, s.queue))
    case WorkerWakes(w) => w < |s.workers| && s.workers[w].Waiting?
    case WorkerRuns(w) => w < |s.workers| && s.workers[w].Holding? && s.workers[w].node in s.fields
    case WorkerFrees(w) =>
      w < |s.workers| && s.workers[w].Finished? && s.workers[w].node < |s.pool.memory|
  }

  ghost function Next(s: State, a: Action): State
    requires Enabled(s, a)
  {
    match a
    // CreateTask (src/threadpool.c:162-163): AllocPool_Alloc under the pool mutex
    case ProducerAlloc(p) =>
      s.(pool := Alloc(s.pool), out := s.out + {s.pool.head},
         producers := s.producers[p := Allocated(s.pool.head)])
    // src/threadpool.c:164-166: the fields overwrite the free-list link
    case ProducerFill(p, runnable, priority, firstWord) =>
      var n := s.producers[p].node;
      s.(pool := Write(s.pool, n, firstWord), fields := s.fields[n := Task(s.next, runnable)],
         next := s.next + 1, producers := s.producers[p := Created(n, priority)])
    // src/threadpool.c:178-182
    case ProducerInsert(p) =>
      var pr := s.producers[p];
      s.(queue := s.queue + multiset{Node(Timespec(pr.priority, 0), pr.node)},
         producers := s.producers[p := Inserted])
    // src/threadpool.c:183: wakes a waiting worker if there is one
    case ProducerSignal(p, w) =>
      s.(producers := s.producers[p := Idle],
         workers := if AnyWaiting(s) then s.workers[w := Ready] else s.workers)
    // src/threadpool.c:20-41: wait, or extract a least task
    case WorkerCheck(w, e) =>
      if s.queue == multiset{} then s.(workers := s.workers[w := Waiting])
      else s.(queue := s.queue - multiset{e}, workers := s.workers[w := Holding(e.data)])
    // pthread_cond_wait may return without a signal
    case WorkerWakes(w) => s.(workers := s.workers[w := Ready])
    // src/threadpool.c:45-57
    case WorkerRuns(w) =>
      var n := s.workers[w].node;
      s.(log := s.log + [s.fields[n]], workers := s.workers[w := Finished(n)])
    // src/threadpool.c:65: AllocPool_Free under the pool mutex
    case WorkerFrees(w) =>
      var n := s.workers[w].node;
      s.(pool := Free(s.pool, n), out := s.out - {n}, workers := s.workers[w := Ready])
  }

  /** ThreadPool_Init (src/threadpool.c:120-157) with any number of workers, used by any number
      of producers. */
  ghost predicate IsInitial(s: State, init: nat) {
    && s.pool == Init(init) && s.out == {} && s.fields == map[] && s.queue == multiset{}
    && (forall w :: 0 <= w < |s.workers| ==> s.workers[w] == Ready)
    && (forall p :: 0 <= p < |s.producers| ==> s.producers[p] == Idle)
    && s.next == 0 && s.log == []
  }

  ghost predicate IsRun(trace: seq<State>, actions: seq<Action>, init: nat) {
    && |trace| == |actions| + 1
    && IsInitial(trace[0], init)
    && forall i :: 0 <= i < |actions| ==> Enabled(trace[i], actions[i]) && trace[i + 1] == Next(trace[i], actions[i])
  }

  // ---------- every node has one holder ----------

  datatype Place = InFreeList | WithProducer(p: nat) | InQueue | WithWorker(w: nat)

  ghost predicate Queued(queue: multiset<Node>, n: nat) {
    exists e :: e in queue && e.data == n
  }

  ghost predicate HeldAt(s: State, n: nat, place: Place) {
    match place
    case InFreeList => 0 < n <= s.pool.elementCount && n !in s.out
    case WithProducer(p) =>
      p < |s.producers| && (s.producers[p].Allocated? || s.producers[p].Created?) && s.producers[p].node == n
    case InQueue => Queued(s.queue, n)
    case WithWorker(w) =>
      w < |s.workers| && (s.workers[w].Holding? || s.workers[w].Finished?) && s.workers[w].node == n
  }

  ghost predicate IsNode(s: State, n: nat) {
    0 < n <= s.pool.elementCount
  }

  /** The queue holds each node at most once. */
  ghost predicate QueuedOnce(queue: multiset<Node>) {
    && (forall e :: e in queue ==> queue[e] == 1)
    && (forall e, f :: e in queue && f in queue && e.data == f.data ==> e == f)
  }

  /** Each node is in exactly one of the free list, a producer's hands, the queue and a worker's
      hands; the queue holds it once. */
  ghost predicate OneHolder(s: State) {
    && (forall n: nat {:trigger IsNode(s, n)} :: IsNode(s, n) ==> exists place :: HeldAt(s, n, place))
    && (forall n: nat, place :: HeldAt(s, n, place) ==> IsNode(s, n))
    && (forall n: nat, a, b :: HeldAt(s, n, a) && HeldAt(s, n, b) ==> a == b)
    && QueuedOnce(s.queue)
  }

  /** n0 left one place for another; every other node stayed, and new nodes are free. */
  ghost predicate Moved(s: State, s': State, n0: nat, from: Place, to: Place) {
    && HeldAt(s, n0, from) && s.pool.elementCount <= s'.pool.elementCount
    && (forall n: nat, at :: n != n0 && n <= s.pool.elementCount ==> (HeldAt(s', n, at) <==> HeldAt(s, n, at)))
    && (forall n: nat, at :: n != n0 && s.pool.elementCount < n ==>
          (HeldAt(s', n, at) <==> at == InFreeList && IsNode(s', n)))
    && !HeldAt(s', n0, from) && HeldAt(s', n0, to)
    && (forall at :: at != to && HeldAt(s', n0, at) ==> HeldAt(s, n0, at))
  }

  lemma MoveKeepsOneHolder(s: State, s': State, n0: nat, from: Place, to: Place)
    requires OneHolder(s) && Moved(s, s', n0, from, to) && QueuedOnce(s'.queue)
    ensures OneHolder(s')
  {
    assert IsNode(s, n0);
    forall n: nat | IsNode(s', n)
      ensures exists at :: HeldAt(s', n, at)
    {
      if n == n0 { assert HeldAt(s', n, to); }
      else if n <= s.pool.elementCount {
        assert IsNode(s, n);
        var at :| HeldAt(s, n, at);
        assert HeldAt(s', n, at);
      } else { assert HeldAt(s', n, InFreeList); }
    }
    forall n: nat, at | HeldAt(s', n, at)
      ensures IsNode(s', n)
    {
      if n != n0 && n <= s.pool.elementCount { assert HeldAt(s, n, at); }
    }
    forall n: nat, a, b | HeldAt(s', n, a) && HeldAt(s', n, b)
      ensures a == b
    {
      if n != n0 && n <= s.pool.elementCount { assert HeldAt(s, n, a) && HeldAt(s, n, b); }
      if n == n0 { assert a != to ==> a == from; assert b != to ==> b == from; }
    }
  }

  /** Steps that hand no node over. */
  ghost predicate SamePlaces(s: State, s': State) {
    && s'.pool.elementCount == s.pool.elementCount && s'.queue == s.queue
    && forall n: nat, at :: HeldAt(s', n, at) <==> HeldAt(s, n, at)
  }

  lemma SamePlacesKeepOneHolder(s: State, s': State)
    requires OneHolder(s) && SamePlaces(s, s')
    ensures OneHolder(s')
  {
    forall n: nat | IsNode(s', n)
      ensures exists at :: HeldAt(s', n, at)
    {
      assert IsNode(s, n);
      var at :| HeldAt(s, n, at);
      assert HeldAt(s', n, at);
    }
  }

  lemma AllocKeepsOneHolder(s: State, p: nat, init: nat, list: seq<nat>)
    requires OneHolder(s) && Enabled(s, ProducerAlloc(p)) && Consistent(s.pool, init, list, s.out)
    ensures OneHolder(Next(s, ProducerAlloc(p)))
  {
    var s', n0 := Next(s, ProducerAlloc(p)), s.pool.head;
    var list' := AllocKeeps(s.pool, init, list, s.out);
    assert HeldAt(s, n0, InFreeList);
    forall n: nat, at | n != n0 && s.pool.elementCount < n
      ensures HeldAt(s', n, at) <==> at == InFreeList && IsNode(s', n)
    {
      assert !HeldAt(s, n, at);
      assert n !in s.out;
    }
    MoveKeepsOneHolder(s, s', n0, InFreeList, WithProducer(p));
  }

  lemma FreeKeepsOneHolder(s: State, w: nat)
    requires OneHolder(s) && Enabled(s, WorkerFrees(w))
    ensures OneHolder(Next(s, WorkerFrees(w)))
  {
    var s', n0 := Next(s, WorkerFrees(w)), s.workers[w].node;
    assert HeldAt(s, n0, WithWorker(w));
    forall n: nat, at | n != n0
      ensures HeldAt(s', n, at) <==> HeldAt(s, n, at)
    {
    }
    assert forall n: nat, at :: HeldAt(s, n, at) ==> IsNode(s, n);
    MoveKeepsOneHolder(s, s', n0, WithWorker(w), InFreeList);
  }

  lemma InsertKeepsOneHolder(s: State, p: nat)
    requires OneHolder(s) && Enabled(s, ProducerInsert(p))
    ensures OneHolder(Next(s, ProducerInsert(p)))
  {
    var s' := Next(s, ProducerInsert(p));
    var n0 := s.producers[p].node;
    var e0 := Node(Timespec(s.producers[p].priority, 0), n0);
    assert HeldAt(s, n0, WithProducer(p));
    assert !HeldAt(s, n0, InQueue);
    assert e0 in s'.queue;
    forall e | e in s'.queue
      ensures e in s.queue || e == e0
    {
    }
    forall n: nat, at | n != n0
      ensures HeldAt(s', n, at) <==> HeldAt(s, n, at)
    {
      if at == InQueue && Queued(s.queue, n) {
        var e :| e in s.queue && e.data == n;
        assert e in s'.queue;
      }
    }
    MoveKeepsOneHolder(s, s', n0, WithProducer(p), InQueue);
  }

  lemma ExtractKeepsOneHolder(s: State, w: nat, e0: Node)
    requires OneHolder(s) && Enabled(s, WorkerCheck(w, e0)) && s.queue != multiset{}
    ensures OneHolder(Next(s, WorkerCheck(w, e0)))
  {
    var s' := Next(s, WorkerCheck(w, e0));
    var n0 := e0.data;
    assert HeldAt(s, n0, InQueue);
    forall e
      ensures e in s'.queue <==> e in s.queue && e != e0
    {
    }
    forall n: nat, at | n != n0
      ensures HeldAt(s', n, at) <==> HeldAt(s, n, at)
    {
      if at == InQueue && Queued(s.queue, n) {
        var e :| e in s.queue && e.data == n;
        assert e in s'.queue;
      }
    }
    MoveKeepsOneHolder(s, s', n0, InQueue, WithWorker(w));
  }

  lemma StepKeepsOneHolder(s: State, a: Action, init: nat, list: seq<nat>)
    requires OneHolder(s) && Enabled(s, a) && Consistent(s.pool, init, list, s.out)
    ensures OneHolder(Next(s, a))
  {
    match a
    case ProducerAlloc(p) => AllocKeepsOneHolder(s, p, init, list);
    case ProducerInsert(p) => InsertKeepsOneHolder(s, p);
    case WorkerFrees(w) => FreeKeepsOneHolder(s, w);
    case WorkerCheck(w, e) =>
      if s.queue == multiset{} { SamePlacesKeepOneHolder(s, Next(s, a)); } else { ExtractKeepsOneHolder(s, w, e); }
    case _ => SamePlacesKeepOneHolder(s, Next(s, a));
  }

  // ---------- every added task is dealt with at most once ----------

  /** n holds a task that no worker has dealt with yet. */
  ghost predicate Pending(s: State, n: nat) {
    || (exists p :: 0 <= p < |s.producers| && s.producers[p].Created? && s.producers[p].node == n)
    || Queued(s.queue, n)
    || (exists w :: 0 <= w < |s.workers| && s.workers[w] == Holding(n))
  }

  ghost predicate Logged(log: seq<Task>, id: nat) {
    exists i :: 0 <= i < |log| && log[i].id == id
  }

  /** Every task added so far is pending at exactly one node or in the log, exactly once. */
  ghost predicate Accounted(s: State) {
    && (forall n: nat {:trigger Pending(s, n)} :: Pending(s, n) ==>
          n in s.fields && s.fields[n].id < s.next && !Logged(s.log, s.fields[n].id))
    && (forall n: nat, m: nat :: Pending(s, n) && Pending(s, m) && s.fields[n].id == s.fields[m].id ==> n == m)
    && (forall i :: 0 <= i < |s.log| ==> s.log[i].id < s.next)
    && (forall i, j :: 0 <= i < j < |s.log| ==> s.log[i].id != s.log[j].id)
    && (forall id: nat {:trigger Logged(s.log, id)} :: id < s.next ==>
          Logged(s.log, id) || exists n: nat :: Pending(s, n) && s.fields[n].id == id)
  }

  lemma SamePendingKeepsAccounted(s: State, s': State)
    requires Accounted(s) && s'.fields == s.fields && s'.log == s.log && s'.next == s.next
    requires forall n: nat :: Pending(s', n) <==> Pending(s, n)
    ensures Accounted(s')
  {
  }

  ghost predicate IsPendingPlace(s: State, at: Place) {
    match at
    case InFreeList => false
    case WithProducer(p) => p < |s.producers| && s.producers[p].Created?
    case InQueue => true
    case WithWorker(w) => w < |s.workers| && s.workers[w].Holding?
  }

  /** A pending node is held in one of the three pending places. */
  lemma PendingHeld(s: State, n: nat)
    requires OneHolder(s) && Pending(s, n)
    ensures exists at :: HeldAt(s, n, at) && IsPendingPlace(s, at)
  {
    if p :| 0 <= p < |s.producers| && s.producers[p].Created? && s.producers[p].node == n {
      assert HeldAt(s, n, WithProducer(p)) && IsPendingPlace(s, WithProducer(p));
    } else if w :| 0 <= w < |s.workers| && s.workers[w] == Holding(n) {
      assert HeldAt(s, n, WithWorker(w)) && IsPendingPlace(s, WithWorker(w));
    } else {
      assert HeldAt(s, n, InQueue) && IsPendingPlace(s, InQueue);
    }
  }

  lemma FillKeepsAccounted(s: State, p: nat, runnable: bool, priority: int, firstWord: nat)
    requires OneHolder(s) && Accounted(s) && Enabled(s, ProducerFill(p, runnable, priority, firstWord))
    ensures Accounted(Next(s, ProducerFill(p, runnable, priority, firstWord)))
  {
    var s', n0 := Next(s, ProducerFill(p, runnable, priority, firstWord)), s.producers[p].node;
    assert HeldAt(s, n0, WithProducer(p));
    assert s'.producers[p].Created? && s'.producers[p].node == n0;
    assert Pending(s', n0);
    if Pending(s, n0) { PendingHeld(s, n0); assert false; }
    forall n: nat | n != n0
      ensures Pending(s', n) <==> Pending(s, n)
    {
      if q :| 0 <= q < |s.producers| && s.producers[q].Created? && s.producers[q].node == n {
        assert s'.producers[q] == s.producers[q];
      }
    }
    forall id: nat | id < s'.next
      ensures Logged(s'.log, id) || exists n: nat :: Pending(s', n) && s'.fields[n].id == id
    {
      if id < s.next && !Logged(s.log, id) {
        var n: nat :| Pending(s, n) && s.fields[n].id == id;
        assert Pending(s', n);
      }
    }
  }

  lemma InsertKeepsPending(s: State, p: nat, n: nat)
    requires Enabled(s, ProducerInsert(p))
    ensures Pending(Next(s, ProducerInsert(p)), n) <==> Pending(s, n)
  {
    var s', n0 := Next(s, ProducerInsert(p)), s.producers[p].node;
    var e0 := Node(Timespec(s.producers[p].priority, 0), n0);
    assert e0 in s'.queue;
    if q :| 0 <= q < |s.producers| && s.producers[q].Created? && s.producers[q].node == n {
      if q != p { assert s'.producers[q] == s.producers[q]; }
    }
    if q :| 0 <= q < |s'.producers| && s'.producers[q].Created? && s'.producers[q].node == n {
      assert s.producers[q] == s'.producers[q];
    }
    if e :| e in s.queue && e.data == n { assert e in s'.queue; }
    if e :| e in s'.queue && e.data == n { assert e in s.queue || e == e0; }
  }

  lemma ExtractKeepsPending(s: State, w: nat, e0: Node, n: nat)
    requires OneHolder(s) && Enabled(s, WorkerCheck(w, e0))
    ensures Pending(Next(s, WorkerCheck(w, e0)), n) <==> Pending(s, n)
  {
    var s' := Next(s, WorkerCheck(w, e0));
    if v :| 0 <= v < |s.workers| && s.workers[v] == Holding(n) { assert s'.workers[v] == Holding(n); }
    if v :| 0 <= v < |s'.workers| && s'.workers[v] == Holding(n) {
      if v == w { assert e0 in s.queue; } else { assert s.workers[v] == Holding(n); }
    }
    if e :| e in s.queue && e.data == n {
      if e == e0 { assert s'.workers[w] == Holding(n); } else { assert e in s'.queue; }
    }
    if e :| e in s'.queue && e.data == n { assert e in s.queue; }
  }

  lemma RunEndsPending(s: State, w: nat)
    requires OneHolder(s) && Enabled(s, WorkerRuns(w))
    ensures !Pending(Next(s, WorkerRuns(w)), s.workers[w].node)
  {
    var s', n0 := Next(s, WorkerRuns(w)), s.workers[w].node;
    assert HeldAt(s, n0, WithWorker(w));
    assert !HeldAt(s, n0, InQueue);
    if p :| 0 <= p < |s.producers| && s.producers[p].Created? && s.producers[p].node == n0 {
      assert HeldAt(s, n0, WithProducer(p));
    }
    if v :| 0 <= v < |s'.workers| && s'.workers[v] == Holding(n0) {
      assert HeldAt(s, n0, WithWorker(v));
    }
  }

  lemma RunKeepsAccounted(s: State, w: nat)
    requires OneHolder(s) && Accounted(s) && Enabled(s, WorkerRuns(w))
    ensures Accounted(Next(s, WorkerRuns(w)))
  {
    var s', n0 := Next(s, WorkerRuns(w)), s.workers[w].node;
    var id0 := s.fields[n0].id;
    assert HeldAt(s, n0, WithWorker(w));
    assert Pending(s, n0);
    assert s'.log[|s.log|].id == id0;
    if Pending(s', n0) { RunEndsPending(s, w); }
    forall n: nat | n != n0
      ensures Pending(s', n) <==> Pending(s, n)
    {
      if v :| 0 <= v < |s.workers| && s.workers[v] == Holding(n) { assert s'.workers[v] == Holding(n); }
    }
    forall id: nat
      ensures Logged(s'.log, id) <==> Logged(s.log, id) || id == id0
    {
      if i :| 0 <= i < |s.log| && s.log[i].id == id { assert s'.log[i].id == id; }
    }
    forall id: nat | id < s'.next
      ensures Logged(s'.log, id) || exists n: nat :: Pending(s', n) && s'.fields[n].id == id
    {
      if !Logged(s.log, id) {
        var n: nat :| Pending(s, n) && s.fields[n].id == id;
        assert n == n0 || Pending(s', n);
      }
    }
    forall i | 0 <= i < |s.log|
      ensures s.log[i].id != id0
    {
      if s.log[i].id == id0 { assert Logged(s.log, id0); }
    }
  }

  lemma OtherStepsKeepPending(s: State, a: Action, n: nat)
    requires OneHolder(s) && Enabled(s, a) && !a.ProducerFill? && !a.WorkerRuns?
    ensures Pending(Next(s, a), n) <==> Pending(s, n)
  {
    var s' := Next(s, a);
    if a.ProducerInsert? {
      InsertKeepsPending(s, a.p, n);
    } else if a.WorkerCheck? {
      ExtractKeepsPending(s, a.w, a.e, n);
    } else {
      if q :| 0 <= q < |s.producers| && s.producers[q].Created? && s.producers[q].node == n {
        assert s'.producers[q] == s.producers[q];
      }
      if q :| 0 <= q < |s'.producers| && s'.producers[q].Created? && s'.producers[q].node == n {
        assert s.producers[q] == s'.producers[q];
      }
      if v :| 0 <= v < |s.workers| && s.workers[v] == Holding(n) { assert s'.workers[v] == Holding(n); }
      if v :| 0 <= v < |s'.workers| && s'.workers[v] == Holding(n) { assert s.workers[v] == Holding(n); }
    }
  }

  lemma StepKeepsAccounted(s: State, a: Action)
    requires OneHolder(s) && Accounted(s) && Enabled(s, a)
    ensures Accounted(Next(s, a))
  {
    var s' := Next(s, a);
    match a
    case ProducerFill(p, r, pr, fw) => FillKeepsAccounted(s, p, r, pr, fw);
    case WorkerRuns(w) => RunKeepsAccounted(s, w);
    case _ =>
      forall n: nat
        ensures Pending(s', n) <==> Pending(s, n)
      {
        OtherStepsKeepPending(s, a, n);
      }
      SamePendingKeepsAccounted(s, s');
  }

  // ---------- no lost wake-up ----------

  ghost function Awake(ws: seq<Worker>): nat {
    if ws == [] then 0 else Awake(ws[..|ws| - 1]) + (if ws[|ws| - 1].Waiting? then 0 else 1)
  }

  ghost function Signals(ps: seq<Producer>): nat {
    if ps == [] then 0 else Signals(ps[..|ps| - 1]) + (if ps[|ps| - 1].Inserted? then 1 else 0)
  }

  lemma {:induction false} AwakeUpdate(ws: seq<Worker>, w: nat, x: Worker)
    requires w < |ws|
    ensures Awake(ws[w := x]) == Awake(ws) - (if ws[w].Waiting? then 0 else 1) + (if x.Waiting? then 0 else 1)
    decreases |ws|
  {
    var last := |ws| - 1;
    if w < last {
      AwakeUpdate(ws[..last], w, x);
      assert ws[w := x][..last] == ws[..last][w := x];
    } else {
      assert ws[w := x][..last] == ws[..last];
    }
  }

  lemma {:induction false} SignalsUpdate(ps: seq<Producer>, p: nat, x: Producer)
    requires p < |ps|
    ensures Signals(ps[p := x]) == Signals(ps) - (if ps[p].Inserted? then 1 else 0) + (if x.Inserted? then 1 else 0)
    decreases |ps|
  {
    var last := |ps| - 1;
    if p < last {
      SignalsUpdate(ps[..last], p, x);
      assert ps[p := x][..last] == ps[..last][p := x];
    } else {
      assert ps[p := x][..last] == ps[..last];
    }
  }

  lemma {:induction false} AllAwake(ws: seq<Worker>)
    requires forall w :: 0 <= w < |ws| ==> !ws[w].Waiting?
    ensures Awake(ws) == |ws|
    decreases |ws|
  {
    if ws != [] { AllAwake(ws[..|ws| - 1]); }
  }

  lemma {:induction false} SomeAwake(ws: seq<Worker>) returns (w: nat)
    requires Awake(ws) > 0
    ensures w < |ws| && !ws[w].Waiting?
    decreases |ws|
  {
    w := |ws| - 1;
    if ws[w].Waiting? { w := SomeAwake(ws[..w]); }
  }

  lemma {:induction false} SomeSignal(ps: seq<Producer>) returns (p: nat)
    requires Signals(ps) > 0
    ensures p < |ps| && ps[p].Inserted?
    decreases |ps|
  {
    p := |ps| - 1;
    if !ps[p].Inserted? { p := SomeSignal(ps[..p]); }
  }

  function Min(a: int, b: int): int { if a < b then a else b }

  /** Workers awake plus signals still to come cover the queue, up to the number of workers:
      no worker sleeps beside a task it could take. */
  ghost predicate NoLostWakeup(s: State) {
    Min(|s.workers|, |s.queue|) <= Awake(s.workers) + Signals(s.producers)
  }

  lemma StepKeepsNoLostWakeup(s: State, a: Action)
    requires NoLostWakeup(s) && Enabled(s, a)
    ensures NoLostWakeup(Next(s, a))
  {
    var s' := Next(s, a);
    match a
    case ProducerAlloc(p) => SignalsUpdate(s.producers, p, s'.producers[p]);
    case ProducerFill(p, _, _, _) => SignalsUpdate(s.producers, p, s'.producers[p]);
    case ProducerInsert(p) => SignalsUpdate(s.producers, p, s'.producers[p]);
    case ProducerSignal(p, w) =>
      SignalsUpdate(s.producers, p, Idle);
      if AnyWaiting(s) { AwakeUpdate(s.workers, w, Ready); } else { AllAwake(s.workers); }
    case WorkerCheck(w, e) => AwakeUpdate(s.workers, w, s'.workers[w]);
    case WorkerWakes(w) => AwakeUpdate(s.workers, w, Ready);
    case WorkerRuns(w) => AwakeUpdate(s.workers, w, s'.workers[w]);
    case WorkerFrees(w) => AwakeUpdate(s.workers, w, Ready);
  }

  // ---------- tasks are taken by priority ----------

  /** A call of ThreadPool_AddTask: whether `taskfn` is non-null, and the priority. */
  datatype Call = Call(runnable: bool, priority: int)

  /** The calls of the first n steps, in order; a task's number is its place in them. */
  ghost function Calls(actions: seq<Action>, n: nat): seq<Call>
    requires n <= |actions|
  {
    if n == 0 then []
    else
      var a := actions[n - 1];
      Calls(actions, n - 1) + (if a.ProducerFill? then [Call(a.runnable, a.priority)] else [])
  }

  ghost predicate IsTaskOf(calls: seq<Call>, task: Task) {
    task.id < |calls| && task.runnable == calls[task.id].runnable
  }

  /** A node's task has the priority of its call. */
  ghost predicate HasPriority(calls: seq<Call>, fields: map<nat, Task>, n: nat, priority: int) {
    n in fields && IsTaskOf(calls, fields[n]) && priority == calls[fields[n].id].priority
  }

  ghost predicate QueueAsCalled(calls: seq<Call>, fields: map<nat, Task>, queue: multiset<Node>) {
    forall e :: e in queue ==> e.key.nsec == 0 && HasPriority(calls, fields, e.data, e.key.sec)
  }

  ghost predicate ProducersAsCalled(calls: seq<Call>, fields: map<nat, Task>, producers: seq<Producer>) {
    forall p :: 0 <= p < |producers| && producers[p].Created? ==>
      HasPriority(calls, fields, producers[p].node, producers[p].priority)
  }

  ghost predicate FieldsAsCalled(calls: seq<Call>, fields: map<nat, Task>) {
    forall n :: n in fields ==> IsTaskOf(calls, fields[n])
  }

  ghost predicate LogAsCalled(calls: seq<Call>, log: seq<Task>) {
    forall m :: 0 <= m < |log| ==> IsTaskOf(calls, log[m])
  }

  /** Tasks, and the keys they are or will be queued with, are those of their calls. */
  ghost predicate AsCalled(s: State, calls: seq<Call>) {
    && s.next == |calls| && FieldsAsCalled(calls, s.fields) && LogAsCalled(calls, s.log)
    && QueueAsCalled(calls, s.fields, s.queue) && ProducersAsCalled(calls, s.fields, s.producers)
  }

  lemma InsertKeepsAsCalled(s: State, p: nat, calls: seq<Call>)
    requires AsCalled(s, calls) && Enabled(s, ProducerInsert(p))
    ensures AsCalled(Next(s, ProducerInsert(p)), calls)
  {
  }

  lemma RunKeepsAsCalled(s: State, w: nat, calls: seq<Call>)
    requires AsCalled(s, calls) && Enabled(s, WorkerRuns(w))
    ensures AsCalled(Next(s, WorkerRuns(w)), calls)
  {
  }

  lemma FillKeepsAsCalled(s: State, p: nat, runnable: bool, priority: int, firstWord: nat, calls: seq<Call>)
    requires OneHolder(s) && AsCalled(s, calls) && Enabled(s, ProducerFill(p, runnable, priority, firstWord))
    ensures AsCalled(Next(s, ProducerFill(p, runnable, priority, firstWord)), calls + [Call(runnable, priority)])
  {
    var n0 := s.producers[p].node;
    assert HeldAt(s, n0, WithProducer(p));
    forall e | e in s.queue
      ensures e.data != n0
    {
      if e.data == n0 { assert HeldAt(s, n0, InQueue); }
    }
    forall q: nat | q < |s.producers| && q != p && s.producers[q].Created?
      ensures s.producers[q].node != n0
    {
      if s.producers[q].node == n0 { assert HeldAt(s, n0, WithProducer(q)); }
    }
  }

  lemma StepKeepsAsCalled(s: State, a: Action, calls: seq<Call>)
    requires OneHolder(s) && AsCalled(s, calls) && Enabled(s, a)
    ensures AsCalled(Next(s, a), calls + if a.ProducerFill? then [Call(a.runnable, a.priority)] else [])
  {
    hide OneHolder, Alloc, Free, Write, HasPriority, IsTaskOf;
    assert calls + [] == calls;
    match a
    case ProducerFill(p, runnable, priority, firstWord) =>
      FillKeepsAsCalled(s, p, runnable, priority, firstWord, calls);
    case ProducerInsert(p) => InsertKeepsAsCalled(s, p, calls);
    case WorkerRuns(w) => RunKeepsAsCalled(s, w, calls);
    case _ =>
  }

  // ---------- every run ----------

  /** What holds in every state of every run; `list` is the pool's free list. */
  ghost predicate Invariant(s: State, init: nat, list: seq<nat>) {
    && Consistent(s.pool, init, list, s.out)
    && OneHolder(s) && Accounted(s) && NoLostWakeup(s)
  }

  lemma InitialInvariant(s: State, init: nat)
    requires 0 < init && IsInitial(s, init)
    ensures Invariant(s, init, Span(1, init))
  {
    InitConsistent(init);
    AllAwake(s.workers);
    forall n: nat | IsNode(s, n)
      ensures exists at :: HeldAt(s, n, at)
    {
      assert HeldAt(s, n, InFreeList);
    }
  }

  lemma StepKeepsPool(s: State, a: Action, init: nat, list: seq<nat>) returns (list': seq<nat>)
    requires Consistent(s.pool, init, list, s.out) && OneHolder(s) && Enabled(s, a)
    ensures Consistent(Next(s, a).pool, init, list', Next(s, a).out)
  {
    list' := list;
    match a
    case ProducerAlloc(p) => list' := AllocKeeps(s.pool, init, list, s.out);
    case ProducerFill(p, _, _, firstWord) =>
      var n := s.producers[p].node;
      assert HeldAt(s, n, WithProducer(p)) && !HeldAt(s, n, InFreeList);
      WriteKeeps(s.pool, init, list, s.out, n, firstWord);
    case WorkerFrees(w) =>
      var n := s.workers[w].node;
      assert HeldAt(s, n, WithWorker(w)) && !HeldAt(s, n, InFreeList);
      FreeKeeps(s.pool, init, list, s.out, n);
      list' := [n] + list;
    case _ =>
  }

  lemma StepKeepsInvariant(s: State, a: Action, init: nat, list: seq<nat>) returns (list': seq<nat>)
    requires Invariant(s, init, list) && Enabled(s, a)
    ensures Invariant(Next(s, a), init, list')
  {
    StepKeepsOneHolder(s, a, init, list);
    StepKeepsAccounted(s, a);
    StepKeepsNoLostWakeup(s, a);
    list' := StepKeepsPool(s, a, init, list);
  }

  lemma {:induction false} RunsKeepInvariant(trace: seq<State>, actions: seq<Action>, init: nat, i: nat)
      returns (list: seq<nat>)
    requires 0 < init && IsRun(trace, actions, init) && i <= |actions|
    ensures Invariant(trace[i], init, list)
    decreases i
  {
    if i == 0 {
      InitialInvariant(trace[0], init);
      list := Span(1, init);
    } else {
      list := RunsKeepInvariant(trace, actions, init, i - 1);
      list := StepKeepsInvariant(trace[i - 1], actions[i - 1], init, list);
    }
  }

  /** In every interleaving each node has exactly one holder, and the free nodes are exactly
      those on the list from headnode. */
  lemma EveryNodeHasOneHolder(trace: seq<State>, actions: seq<Action>, init: nat, i: nat, n: nat)
      returns (list: seq<nat>, at: Place)
    requires 0 < init && IsRun(trace, actions, init) && i <= |actions| && IsNode(trace[i], n)
    ensures HeldAt(trace[i], n, at) && forall other :: HeldAt(trace[i], n, other) ==> other == at
    ensures IsChain(trace[i].pool.memory, trace[i].pool.head, list) && (n in list <==> at == InFreeList)
  {
    list := RunsKeepInvariant(trace, actions, init, i);
    at :| HeldAt(trace[i], n, at);
    assert HeldAt(trace[i], n, InFreeList) <==> n !in trace[i].out;
  }

  /** In every interleaving no task is dealt with twice, and none gets lost: a task added so far
      was dealt with or is pending at a node. */
  lemma EachTaskRunsAtMostOnce(trace: seq<State>, actions: seq<Action>, init: nat, i: nat)
    requires 0 < init && IsRun(trace, actions, init) && i <= |actions|
    ensures forall j, k :: 0 <= j < k < |trace[i].log| ==> trace[i].log[j].id != trace[i].log[k].id
    ensures forall n: nat {:trigger Pending(trace[i], n)} :: Pending(trace[i], n) ==>
      n in trace[i].fields && !Logged(trace[i].log, trace[i].fields[n].id)
    ensures forall id: nat {:trigger Logged(trace[i].log, id)} :: id < trace[i].next && !Logged(trace[i].log, id) ==>
      exists n: nat :: Pending(trace[i], n) && trace[i].fields[n].id == id
  {
    var list := RunsKeepInvariant(trace, actions, init, i);
  }

  lemma RunStep(trace: seq<State>, actions: seq<Action>, init: nat, i: nat)
    requires 0 < init && IsRun(trace, actions, init) && i < |actions|
    ensures |trace| == |actions| + 1 && OneHolder(trace[i])
    ensures Enabled(trace[i], actions[i]) && trace[i + 1] == Next(trace[i], actions[i])
  {
    var list := RunsKeepInvariant(trace, actions, init, i);
  }

  lemma {:induction false} RunsKeepAsCalled(trace: seq<State>, actions: seq<Action>, init: nat, i: nat)
    requires 0 < init && IsRun(trace, actions, init) && i <= |actions| < |trace|
    ensures AsCalled(trace[i], Calls(actions, i))
    decreases i
  {
    if i > 0 {
      hide AsCalled, IsRun, OneHolder, Enabled, Next;
      RunsKeepAsCalled(trace, actions, init, i - 1);
      RunStep(trace, actions, init, i - 1);
      StepKeepsAsCalled(trace[i - 1], actions[i - 1], Calls(actions, i - 1));
    }
  }

  /** In every interleaving a worker takes a task whose call gave a priority at most that of the call
      of any other queued task. */
  lemma TakesLeastPriority(trace: seq<State>, actions: seq<Action>, init: nat, i: nat, w: nat, e: Node, f: Node)
    requires 0 < init && IsRun(trace, actions, init) && i < |actions|
    requires actions[i] == WorkerCheck(w, e) && f in trace[i].queue
    ensures var s, calls := trace[i], Calls(actions, i);
      && e in s.queue && trace[i + 1].workers[w] == Holding(e.data)
      && e.data in s.fields && f.data in s.fields
      && s.fields[e.data].id < |calls| && s.fields[f.data].id < |calls|
      && calls[s.fields[e.data].id].priority <= calls[s.fields[f.data].id].priority
  {
    RunsKeepAsCalled(trace, actions, init, i);
  }

  /** What a worker deals with is what some call gave it. */
  lemma DealtWithAsCalled(trace: seq<State>, actions: seq<Action>, init: nat, i: nat, m: nat)
    requires 0 < init && IsRun(trace, actions, init) && i <= |actions| && m < |trace[i].log|
    ensures IsTaskOf(Calls(actions, i), trace[i].log[m])
  {
    RunsKeepAsCalled(trace, actions, init, i);
  }

  /** In every interleaving a non-empty queue finds a worker awake or a signal on its way. */
  lemma QueueIsAttended(trace: seq<State>, actions: seq<Action>, init: nat, i: nat)
    requires 0 < init && IsRun(trace, actions, init) && i <= |actions|
    requires 0 < |trace[i].workers| && trace[i].queue != multiset{}
    ensures || (exists w :: 0 <= w < |trace[i].workers| && !trace[i].workers[w].Waiting?)
            || (exists p :: 0 <= p < |trace[i].producers| && trace[i].producers[p].Inserted?)
  {
    var list := RunsKeepInvariant(trace, actions, init, i);
    var s := trace[i];
    if Awake(s.workers) > 0 { var w := SomeAwake(s.workers); }
    else { var p := SomeSignal(s.producers); }
  }

  /** Workers awake plus signals on their way cover the queue in every interleaving. */
  lemma WorkersCoverQueue(trace: seq<State>, actions: seq<Action>, init: nat, i: nat)
    requires 0 < init && IsRun(trace, actions, init) && i <= |actions|
    ensures Min(|trace[i].workers|, |trace[i].queue|) <= Awake(trace[i].workers) + Signals(trace[i].producers)
  {
    var list := RunsKeepInvariant(trace, actions, init, i);
  }

  /** Wake-ups, which a waiting worker depends on, are not its own steps. */
  ghost predicate WorkerCanStep(s: State, w: nat) {
    || Enabled(s, WorkerRuns(w)) || Enabled(s, WorkerFrees(w))
    || exists e :: Enabled(s, WorkerCheck(w, e))
  }

  ghost predicate ProducerCanStep(s: State, p: nat) {
    || Enabled(s, ProducerAlloc(p)) || Enabled(s, ProducerFill(p, true, 0, 0)) || Enabled(s, ProducerInsert(p))
    || exists w :: Enabled(s, ProducerSignal(p, w))
  }

  /** No thread that is not waiting ever gets stuck: whatever point of the code it is at, its next
      step is possible.  A waiting worker goes on only when a producer signals or its wait returns
      without a signal; QueuedWorkProceeds tells that the queue does not depend on the latter. */
  lemma EveryThreadCanStep(trace: seq<State>, actions: seq<Action>, init: nat, i: nat)
    requires 0 < init && IsRun(trace, actions, init) && i <= |actions|
    ensures forall w: nat :: w < |trace[i].workers| && !trace[i].workers[w].Waiting? ==> WorkerCanStep(trace[i], w)
    ensures forall p: nat :: p < |trace[i].producers| ==> ProducerCanStep(trace[i], p)
  {
    var list := RunsKeepInvariant(trace, actions, init, i);
    var s := trace[i];
    assert list[0] in list;
    forall w: nat | w < |s.workers| && !s.workers[w].Waiting?
      ensures WorkerCanStep(s, w)
    {
      match s.workers[w]
      case Ready =>
        var e := Node(Timespec(0, 0), 0);
        if s.queue != multiset{} { e := LeastExists(s.queue); }
        assert Enabled(s, WorkerCheck(w, e));
      case Holding(n) => assert Pending(s, n);
      case Finished(n) => assert HeldAt(s, n, WithWorker(w));
    }
    forall p: nat | p < |s.producers|
      ensures ProducerCanStep(s, p)
    {
      match s.producers[p]
      case Idle =>
      case Allocated(n) => assert HeldAt(s, n, WithProducer(p));
      case Created(_, _) =>
      case Inserted =>
        var w: nat := 0;
        if AnyWaiting(s) { w :| w < |s.workers| && s.workers[w].Waiting?; }
        assert Enabled(s, ProducerSignal(p, w));
    }
  }

  /** While tasks are queued, some worker that is awake, or some producer about to signal, can take
      its next step: the pool does not rest on waits that return without a signal. */
  lemma QueuedWorkProceeds(trace: seq<State>, actions: seq<Action>, init: nat, i: nat)
    requires 0 < init && IsRun(trace, actions, init) && i <= |actions|
    requires 0 < |trace[i].workers| && trace[i].queue != multiset{}
    ensures || (exists w: nat :: w < |trace[i].workers| && !trace[i].workers[w].Waiting? && WorkerCanStep(trace[i], w))
            || (exists p: nat, w: nat :: Enabled(trace[i], ProducerSignal(p, w)))
  {
    EveryThreadCanStep(trace, actions, init, i);
    QueueIsAttended(trace, actions, init, i);
    var s := trace[i];
    if p: nat :| p < |s.producers| && s.producers[p].Inserted? {
      assert ProducerCanStep(s, p);
      var w: nat :| Enabled(s, ProducerSignal(p, w));
    } else {
      var w: nat :| w < |s.workers| && !s.workers[w].Waiting?;
      assert WorkerCanStep(s, w);
    }
  }
}
