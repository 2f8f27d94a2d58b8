/** The timed queue of the server over whole runs: Server_AddTimedTask (src/server.c:62-73) from any
    thread and the passes of TickThreadFn (src/tickthread.c:49-71), as a step system.  Each step
    is a region under the timed queue's lock; Dispatch.TaskQueue.DispatchTimed is the second one. */
module TickThread {
  import opened MinHeap
  import opened Dispatch

  /** data of a queued node is the number of the Server_AddTimedTask call. */
  datatype State = State(queue: multiset<Node>, next: nat, handed: seq<Handoff>)

  /** The clock may show any time. */
  datatype Action =
    | AddTimed(runtime: int)
    | Tick(curtime: int, due: seq<Node>)

  ghost predicate Enabled(s: State, a: Action) {
    match a
    case AddTimed(_) => true
    case Tick(curtime, due) => DueBatch(s.queue, Timespec(curtime, 0), due)
  }

  ghost function Next(s: State, a: Action): State {
    match a
    // src/server.c:70-72
    case AddTimed(runtime) => s.(queue := s.queue + multiset{Node(Timespec(runtime, 0), s.next)}, next := s.next + 1)
    // src/tickthread.c:57-68
    case Tick(curtime, due) =>
      s.(queue := s.queue - multiset(due), handed := s.handed + Handoffs(due, Timespec(curtime, 0)))
  }

  ghost predicate IsRun(trace: seq<State>, actions: seq<Action>) {
    && |trace| == |actions| + 1 && trace[0] == State(multiset{}, 0, [])
    && forall i :: 0 <= i < |actions| ==> Enabled(trace[i], actions[i]) && trace[i + 1] == Next(trace[i], actions[i])
  }

  ghost predicate IsQueued(queue: multiset<Node>, id: nat) {
    exists e :: e in queue && e.data == id
  }

  /** Queued call numbers are used, distinct and not handed off. */
  ghost predicate QueueSound(queue: multiset<Node>, handed: seq<Handoff>, next: nat) {
    && OnceEach(queue)
    && (forall e :: e in queue ==> e.data < next && !IsHanded(handed, e.data))
    && (forall e, f :: e in queue && f in queue && e.data == f.data ==> e == f)
  }

  ghost predicate Complete(queue: multiset<Node>, handed: seq<Handoff>, next: nat) {
    forall id: nat :: id < next ==> IsHanded(handed, id) || IsQueued(queue, id)
  }

  /** Every call number used so far is either handed off, once, or queued, once. */
  ghost predicate Accounted(s: State) {
    && QueueSound(s.queue, s.handed, s.next)
    && HandedOnce(s.handed, s.next)
    && Complete(s.queue, s.handed, s.next)
  }

  /** Nothing went out early, and what is queued waits for a whole second. */
  ghost predicate OnTime(s: State) {
    && WholeSeconds(s.queue)
    && forall i :: 0 <= i < |s.handed| ==> AtMost(s.handed[i].task.key, s.handed[i].now)
  }

  lemma AddedOnce(queue: multiset<Node>, e0: Node)
    requires OnceEach(queue) && e0 !in queue
    ensures OnceEach(queue + multiset{e0})
    ensures forall e :: e in queue + multiset{e0} <==> e in queue || e == e0
  {
  }

  lemma QueuedAfterAdd(queue: multiset<Node>, e0: Node, id: nat)
    ensures IsQueued(queue + multiset{e0}, id) <==> IsQueued(queue, id) || id == e0.data
  {
    var all := queue + multiset{e0};
    if IsQueued(queue, id) {
      var e :| e in queue && e.data == id;
      assert e in all;
    }
    assert e0 in all;
  }

  lemma AddKeepsSound(queue: multiset<Node>, handed: seq<Handoff>, e0: Node)
    requires QueueSound(queue, handed, e0.data) && HandedOnce(handed, e0.data)
    ensures QueueSound(queue + multiset{e0}, handed, e0.data + 1) && HandedOnce(handed, e0.data + 1)
  {
    AddedOnce(queue, e0);
    assert !IsHanded(handed, e0.data);
  }

  lemma AddKeepsComplete(queue: multiset<Node>, handed: seq<Handoff>, e0: Node)
    requires Complete(queue, handed, e0.data)
    ensures Complete(queue + multiset{e0}, handed, e0.data + 1)
  {
    forall id: nat | id < e0.data + 1
      ensures IsHanded(handed, id) || IsQueued(queue + multiset{e0}, id)
    {
      QueuedAfterAdd(queue, e0, id);
    }
  }

  lemma AddKeepsAccounted(s: State, runtime: int)
    requires Accounted(s)
    ensures Accounted(Next(s, AddTimed(runtime)))
  {
    var e0 := Node(Timespec(runtime, 0), s.next);
    AddKeepsSound(s.queue, s.handed, e0);
    AddKeepsComplete(s.queue, s.handed, e0);
  }

  /** The tasks of one pass were queued until now, each once. */
  lemma TickMoves(s: State, curtime: int, due: seq<Node>)
    requires Accounted(s) && Enabled(s, Tick(curtime, due))
    ensures forall k :: 0 <= k < |due| ==> due[k] in s.queue
    ensures forall i, j :: 0 <= i < j < |due| ==> due[i].data != due[j].data
    ensures OnceEach(s.queue - multiset(due))
    ensures forall e :: e in s.queue - multiset(due) <==> e in s.queue && e !in due
  {
    DueOnce(s.queue, due);
    forall k | 0 <= k < |due| ensures due[k] in s.queue {
      assert due[k] in multiset(due);
    }
  }

  lemma TickKeepsAccounted(s: State, curtime: int, due: seq<Node>)
    requires Accounted(s) && Enabled(s, Tick(curtime, due))
    ensures Accounted(Next(s, Tick(curtime, due)))
  {
    var s', now := Next(s, Tick(curtime, due)), Timespec(curtime, 0);
    TickMoves(s, curtime, due);
    AppendKeepsHandedOnce(s.handed, due, now, s.next);
    forall e | e in s'.queue
      ensures e.data < s'.next && !IsHanded(s'.handed, e.data)
    {
      HandedConcat(s.handed, due, now, e.data);
      assert forall k :: 0 <= k < |due| ==> due[k].data != e.data;
    }
    forall id: nat | id < s'.next && !IsHanded(s'.handed, id)
      ensures IsQueued(s'.queue, id)
    {
      HandedConcat(s.handed, due, now, id);
      assert IsQueued(s.queue, id);
      var e :| e in s.queue && e.data == id;
      assert e in s'.queue;
    }
  }

  lemma StepKeepsOnTime(s: State, a: Action)
    requires OnTime(s) && Enabled(s, a)
    ensures OnTime(Next(s, a))
  {
    var s' := Next(s, a);
    forall i | 0 <= i < |s'.handed|
      ensures AtMost(s'.handed[i].task.key, s'.handed[i].now)
    {
      if |s.handed| <= i {
        assert s'.handed[i].task == a.due[i - |s.handed|] && a.due[i - |s.handed|] in a.due;
      } else {
        assert s'.handed[i] == s.handed[i];
      }
    }
  }

  lemma {:induction false} RunsKeepInvariant(trace: seq<State>, actions: seq<Action>, i: nat)
    requires IsRun(trace, actions) && i <= |actions|
    ensures Accounted(trace[i]) && OnTime(trace[i])
    decreases i
  {
    if i > 0 {
      RunsKeepInvariant(trace, actions, i - 1);
      var s, a := trace[i - 1], actions[i - 1];
      StepKeepsOnTime(s, a);
      if a.AddTimed? {
        AddKeepsAccounted(s, a.runtime);
      } else {
        TickKeepsAccounted(s, a.curtime, a.due);
      }
    }
  }

  /** Over every run no timed task is handed off before its time, none twice, and none is lost. */
  lemma TimedTasksGoOutOnceAndOnTime(trace: seq<State>, actions: seq<Action>, i: nat)
    requires IsRun(trace, actions) && i <= |actions|
    ensures forall k :: 0 <= k < |trace[i].handed| ==> AtMost(trace[i].handed[k].task.key, trace[i].handed[k].now)
    ensures forall j, k :: 0 <= j < k < |trace[i].handed| ==>
      trace[i].handed[j].task.data != trace[i].handed[k].task.data
    ensures forall id: nat :: id < trace[i].next ==> (IsHanded(trace[i].handed, id) <==> !IsQueued(trace[i].queue, id))
  {
    RunsKeepInvariant(trace, actions, i);
  }

  /** A pass of the tick thread leaves nothing behind that was due. */
  lemma TickHandsOffAllDue(trace: seq<State>, actions: seq<Action>, i: nat, e: Node)
    requires IsRun(trace, actions) && i < |actions| && actions[i].Tick?
    requires e in trace[i].queue && e.key.sec <= actions[i].curtime
    ensures IsHanded(trace[i + 1].handed, e.data) && e !in trace[i + 1].queue
  {
    RunsKeepInvariant(trace, actions, i);
    var s, a := trace[i], actions[i];
    DueBatchIsExact(s.queue, Timespec(a.curtime, 0), a.due, e);
    assert e in multiset(a.due);
    var k :| 0 <= k < |a.due| && a.due[k] == e;
    HandedConcat(s.handed, a.due, Timespec(a.curtime, 0), e.data);
    TickMoves(s, a.curtime, a.due);
  }

  /** After step k and before step i a pass read a second of at least runtime. */
  ghost predicate CameDue(actions: seq<Action>, k: nat, i: nat, runtime: int)
    requires i <= |actions|
  {
    exists t :: k < t < i && actions[t].Tick? && runtime <= actions[t].curtime
  }

  lemma CameDueNext(actions: seq<Action>, k: nat, i: nat, runtime: int)
    requires k < i < |actions|
    ensures CameDue(actions, k, i + 1, runtime) <==>
      CameDue(actions, k, i, runtime) || (actions[i].Tick? && runtime <= actions[i].curtime)
  {
  }

  lemma AddQueues(s: State, runtime: int)
    requires Accounted(s)
    ensures Node(Timespec(runtime, 0), s.next) in Next(s, AddTimed(runtime)).queue
    ensures !IsHanded(Next(s, AddTimed(runtime)).handed, s.next)
  {
  }

  /** One step on a task that is still queued. */
  lemma StepHandsOffIfDue(s: State, a: Action, e: Node)
    requires Accounted(s) && Enabled(s, a) && e in s.queue && e.key.nsec == 0
    ensures IsHanded(Next(s, a).handed, e.data) <==> a.Tick? && e.key.sec <= a.curtime
    ensures (a.Tick? && e.key.sec <= a.curtime) || e in Next(s, a).queue
  {
    if a.Tick? {
      var now := Timespec(a.curtime, 0);
      DueBatchIsExact(s.queue, now, a.due, e);
      HandedConcat(s.handed, a.due, now, e.data);
      TickMoves(s, a.curtime, a.due);
      assert e in a.due <==> e in multiset(a.due);
    }
  }

  lemma HandedStaysHanded(s: State, a: Action, id: nat)
    requires IsHanded(s.handed, id)
    ensures IsHanded(Next(s, a).handed, id)
  {
    if a.Tick? { HandedConcat(s.handed, a.due, Timespec(a.curtime, 0), id); }
  }

  lemma RunStep(trace: seq<State>, actions: seq<Action>, i: nat)
    requires IsRun(trace, actions) && i < |actions|
    ensures |trace| == |actions| + 1 && Accounted(trace[i])
    ensures Enabled(trace[i], actions[i]) && trace[i + 1] == Next(trace[i], actions[i])
  {
    RunsKeepInvariant(trace, actions, i);
  }

  /** What callers get, in the terms of the calls alone: the task of a Server_AddTimedTask call is
      handed off exactly when a later pass reads a second of at least the one asked for. */
  lemma {:induction false} HandedOffExactlyWhenDue(trace: seq<State>, actions: seq<Action>,
                                                   k: nat, runtime: int, i: nat)
    requires IsRun(trace, actions) && |trace| == |actions| + 1
    requires k < i <= |actions| && actions[k] == AddTimed(runtime)
    ensures IsHanded(trace[i].handed, trace[k].next) <==> CameDue(actions, k, i, runtime)
    ensures CameDue(actions, k, i, runtime) || Node(Timespec(runtime, 0), trace[k].next) in trace[i].queue
    decreases i
  {
    hide IsRun, Accounted, Enabled, Next, IsHanded;
    RunStep(trace, actions, i - 1);
    if i == k + 1 {
      AddQueues(trace[k], runtime);
    } else {
      var e := Node(Timespec(runtime, 0), trace[k].next);
      HandedOffExactlyWhenDue(trace, actions, k, runtime, i - 1);
      CameDueNext(actions, k, i - 1, runtime);
      if CameDue(actions, k, i - 1, runtime) {
        HandedStaysHanded(trace[i - 1], actions[i - 1], e.data);
      } else {
        StepHandsOffIfDue(trace[i - 1], actions[i - 1], e);
      }
    }
  }

  /** No pass can get stuck: every queue has a due batch. */
  lemma TickIsPossible(s: State, curtime: int) returns (due: seq<Node>)
    ensures Enabled(s, Tick(curtime, due))
  {
    due := DueBatchExists(s.queue, Timespec(curtime, 0));
  }
}
