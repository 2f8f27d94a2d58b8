/** The action scheduler of src/action_scheduler.cpp together with the producers that call
    NativeActor::QueueAction (src/nativeactor.cpp), as a step system: a step is a region under
    one lock or one action of the dispatch pass, and any thread may take the next step. */
module Scheduler {
  import opened MinHeap
  import opened Dispatch

  datatype Producer =
    | Outside                // not in QueueAction
    | Queued(actor: nat)     // queue lock released, before AddActiveActor

  /** Where the scheduler thread is.  A pass holds m_active_actors_rwlock from BeginPass to
      EndPass; todo are the set members its iterator has not reached; queues0 and active0 are
      what the queues and the set were when it took the lock. */
  datatype Pc =
    | Asleep
    | InPass(now: Timespec, todo: set<nat>, queues0: seq<multiset<Node>>, active0: set<nat>)
    | Releasing(pass: Pc, actor: nat)      // queue found empty and unlocked, before Release
    | Erasing(pass: Pc, actor: nat)        // after Release, before the erase

  /** Actors are numbered; data of a queued node is the number of the QueueAction call. */
  datatype State = State(
    queues: seq<multiset<Node>>,   // m_action_queue of each actor
    active: set<nat>,              // m_active_actors
    refs: seq<nat>,                // references the scheduler holds on each actor
    producers: seq<Producer>,
    pc: Pc,
    next: nat,
    handed: seq<Handoff>)

  datatype Action =
    | NewActor
    | Insert(p: nat, actor: nat, key: Timespec)
    | Activate(p: nat)
    | BeginPass(now: Timespec)
    | Visit(actor: nat, due: seq<Node>)
    | ReleaseActor
    | EraseActor
    | EndPass

  /** AddActiveActor (src/action_scheduler.cpp:63-73). */
  ghost function AddActive(s: State, actor: nat): State
    requires actor < |s.refs|
  {
    if actor in s.active then s
    else s.(active := s.active + {actor}, refs := s.refs[actor := s.refs[actor] + 1])
  }

  /** Whether the thread is at that point and the lock it needs is free. */
  ghost predicate Enabled(s: State, a: Action) {
    && |s.refs| == |s.queues|
    && match a
       case NewActor => s.pc.Asleep?
       case Insert(p, actor, _) => p < |s.producers| && s.producers[p].Outside? && actor < |s.queues|
       case Activate(p) =>
         p < |s.producers| && s.producers[p].Queued? && s.producers[p].actor < |s.queues| && s.pc.Asleep?
       case BeginPass(_) => s.pc.Asleep?
       case Visit(actor, due) =>
         && s.pc.InPass? && actor in s.pc.todo && actor < |s.queues|
         && DueBatch(s.queues[actor], s.pc.now, due)
       case ReleaseActor => s.pc.Releasing? && s.pc.actor < |s.refs| && s.refs[s.pc.actor] > 0
       case EraseActor => s.pc.Erasing?
       case EndPass => s.pc.InPass? && s.pc.todo == {}
  }

  ghost function Next(s: State, a: Action): State
    requires Enabled(s, a)
  {
    match a
    // the constructor registers the actor (src/nativeactor.cpp:84-95)
    case NewActor =>
      AddActive(s.(queues := s.queues + [multiset{}], refs := s.refs + [0]), |s.queues|)
    // src/nativeactor.cpp:165-167
    case Insert(p, actor, key) =>
      s.(queues := s.queues[actor := s.queues[actor] + multiset{Node(key, s.next)}],
         next := s.next + 1, producers := s.producers[p := Queued(actor)])
    // src/nativeactor.cpp:178
    case Activate(p) => AddActive(s, s.producers[p].actor).(producers := s.producers[p := Outside])
    // src/action_scheduler.cpp:104-111
    case BeginPass(now) => s.(pc := InPass(now, s.active, s.queues, s.active))
    // src/action_scheduler.cpp:118-152: the queue lock is held for the whole visit
    case Visit(actor, due) =>
      var pass := s.pc.(todo := s.pc.todo - {actor});
      var left := s.queues[actor] - multiset(due);
      s.(queues := s.queues[actor := left], handed := s.handed + Handoffs(due, s.pc.now),
         pc := if left == multiset{} then Releasing(pass, actor) else pass)
    // src/action_scheduler.cpp:153
    case ReleaseActor =>
      s.(refs := s.refs[s.pc.actor := s.refs[s.pc.actor] - 1], pc := Erasing(s.pc.pass, s.pc.actor))
    // src/action_scheduler.cpp:154-156
    case EraseActor => s.(active := s.active - {s.pc.actor}, pc := s.pc.pass)
    // src/action_scheduler.cpp:165
    case EndPass => s.(pc := Asleep)
  }

  ghost predicate IsInitial(s: State) {
    && s.queues == [] && s.active == {} && s.refs == [] && s.pc == Asleep && s.next == 0 && s.handed == []
    && forall p :: 0 <= p < |s.producers| ==> s.producers[p] == Outside
  }

  ghost predicate IsRun(trace: seq<State>, actions: seq<Action>) {
    && |trace| == |actions| + 1 && IsInitial(trace[0])
    && forall i :: 0 <= i < |actions| ==> Enabled(trace[i], actions[i]) && trace[i + 1] == Next(trace[i], actions[i])
  }

  // ---------- actors are not stranded, references match the set ----------

  ghost predicate ProducerOnItsWay(s: State, actor: nat) {
    exists p :: 0 <= p < |s.producers| && s.producers[p] == Queued(actor)
  }

  /** The actor the pass is about to take out of the set, if any. */
  ghost predicate Leaving(s: State, actor: nat) {
    (s.pc.Releasing? || s.pc.Erasing?) && s.pc.actor == actor
  }

  ghost function PassOf(pc: Pc): Pc {
    if pc.Releasing? || pc.Erasing? then pc.pass else pc
  }

  ghost predicate Shaped(s: State) {
    && |s.refs| == |s.queues|
    && (forall actor :: actor in s.active ==> actor < |s.queues|)
    && (forall p :: 0 <= p < |s.producers| && s.producers[p].Queued? ==> s.producers[p].actor < |s.queues|)
    && (s.pc.Releasing? || s.pc.Erasing? ==>
          s.pc.pass.InPass? && s.pc.actor in s.active && s.pc.actor !in s.pc.pass.todo)
    && (PassOf(s.pc).InPass? ==>
          && PassOf(s.pc).todo <= s.active && PassOf(s.pc).todo <= PassOf(s.pc).active0
          && |PassOf(s.pc).queues0| == |s.queues|)
  }

  /** Work in a queue is seen by the scheduler or announced by a producer; while an actor is on
      its way out of the set, only a producer counts. */
  ghost predicate NotStranded(s: State) {
    forall actor: nat :: actor < |s.queues| && s.queues[actor] != multiset{} ==>
      || ProducerOnItsWay(s, actor)
      || (actor in s.active && !Leaving(s, actor))
  }

  /** One reference per member; none any more between Release and erase. */
  ghost predicate RefsMatch(s: State) {
    |s.refs| == |s.queues| &&
    forall actor: nat :: actor < |s.refs| ==>
      s.refs[actor] == if actor in s.active && !(s.pc.Erasing? && s.pc.actor == actor) then 1 else 0
  }

  lemma StepKeepsShape(s: State, a: Action)
    requires Shaped(s) && Enabled(s, a)
    ensures Shaped(Next(s, a))
  {
  }

  lemma StepKeepsRefs(s: State, a: Action)
    requires Shaped(s) && RefsMatch(s) && Enabled(s, a)
    ensures RefsMatch(Next(s, a))
  {
  }

  lemma StepKeepsNotStranded(s: State, a: Action)
    requires Shaped(s) && NotStranded(s) && Enabled(s, a)
    ensures NotStranded(Next(s, a))
  {
    var s' := Next(s, a);
    forall actor: nat | actor < |s'.queues| && s'.queues[actor] != multiset{}
      ensures ProducerOnItsWay(s', actor) || (actor in s'.active && !Leaving(s', actor))
    {
      if a.Insert? && a.actor == actor {
        assert s'.producers[a.p] == Queued(actor);
      } else {
        assert actor < |s.queues| && s.queues[actor] != multiset{};
        if p :| 0 <= p < |s.producers| && s.producers[p] == Queued(actor) {
          if !(a.Activate? && a.p == p) { assert s'.producers[p] == Queued(actor); }
        }
      }
    }
  }

  // ---------- no task early, twice or lost ----------

  ghost predicate InQueue(queues: seq<multiset<Node>>, actor: nat, e: Node) {
    actor < |queues| && e in queues[actor]
  }

  /** Every call number used so far is either handed off, once, or queued at one actor, once. */
  ghost predicate Accounted(s: State) {
    && (forall actor: nat {:trigger s.queues[actor]} :: actor < |s.queues| ==> OnceEach(s.queues[actor]))
    && (forall actor: nat, e :: InQueue(s.queues, actor, e) ==> e.data < s.next && !IsHanded(s.handed, e.data))
    && (forall actor: nat, e, other: nat, f ::
          InQueue(s.queues, actor, e) && InQueue(s.queues, other, f) && e.data == f.data ==> actor == other && e == f)
    && HandedOnce(s.handed, s.next)
    && (forall id: nat {:trigger IsHanded(s.handed, id)} :: id < s.next ==>
          IsHanded(s.handed, id) || exists actor: nat, e :: InQueue(s.queues, actor, e) && e.data == id)
  }

  ghost predicate NoneEarly(s: State) {
    forall i :: 0 <= i < |s.handed| ==> AtMost(s.handed[i].task.key, s.handed[i].now)
  }

  /** What was due when the pass began has been handed off, at every member already visited. */
  ghost predicate PassCovers(s: State) {
    PassOf(s.pc).InPass? ==>
      var pass := PassOf(s.pc);
      && (forall actor: nat, e :: InQueue(pass.queues0, actor, e) && actor in pass.todo ==> InQueue(s.queues, actor, e))
      && (forall actor: nat, e ::
            InQueue(pass.queues0, actor, e) && actor in pass.active0 - pass.todo && AtMost(e.key, pass.now) ==>
            IsHanded(s.handed, e.data))
  }

  lemma InsertKeepsAccounted(s: State, p: nat, actor: nat, key: Timespec)
    requires Accounted(s) && Enabled(s, Insert(p, actor, key))
    ensures Accounted(Next(s, Insert(p, actor, key)))
  {
    var s', e0 := Next(s, Insert(p, actor, key)), Node(key, s.next);
    forall a: nat, e
      ensures InQueue(s'.queues, a, e) <==> InQueue(s.queues, a, e) || (a == actor && e == e0)
    {
    }
    assert forall a: nat :: !InQueue(s.queues, a, e0);
    assert !IsHanded(s.handed, s.next);
    assert InQueue(s'.queues, actor, e0);
    assert OnceEach(s'.queues[actor]) by { assert !InQueue(s.queues, actor, e0); }
    forall id: nat | id < s'.next && !IsHanded(s'.handed, id)
      ensures exists a: nat, e :: InQueue(s'.queues, a, e) && e.data == id
    {
      if id < s.next {
        var a: nat, e :| InQueue(s.queues, a, e) && e.data == id;
        assert InQueue(s'.queues, a, e);
      }
    }
  }

  /** The tasks of one visit were queued at that actor until now, each once. */
  lemma VisitMoves(s: State, actor: nat, due: seq<Node>)
    requires Accounted(s) && Enabled(s, Visit(actor, due))
    ensures forall k :: 0 <= k < |due| ==> InQueue(s.queues, actor, due[k])
    ensures forall i, j :: 0 <= i < j < |due| ==> due[i].data != due[j].data
    ensures forall a: nat, e :: InQueue(Next(s, Visit(actor, due)).queues, a, e) <==>
      InQueue(s.queues, a, e) && !(a == actor && e in due)
    ensures OnceEach(s.queues[actor] - multiset(due))
  {
    DueOnce(s.queues[actor], due);
    forall k | 0 <= k < |due|
      ensures InQueue(s.queues, actor, due[k])
    {
      assert due[k] in multiset(due);
    }
    forall i, j | 0 <= i < j < |due|
      ensures due[i].data != due[j].data
    {
      assert InQueue(s.queues, actor, due[i]) && InQueue(s.queues, actor, due[j]);
    }
  }

  lemma VisitLeavesPending(s: State, actor: nat, due: seq<Node>, a: nat, e: Node)
    requires Accounted(s) && Enabled(s, Visit(actor, due))
    requires InQueue(Next(s, Visit(actor, due)).queues, a, e)
    ensures e.data < s.next && !IsHanded(s.handed + Handoffs(due, s.pc.now), e.data)
  {
    VisitMoves(s, actor, due);
    HandedConcat(s.handed, due, s.pc.now, e.data);
    assert forall k :: 0 <= k < |due| ==> due[k].data != e.data;
  }

  lemma VisitLosesNone(s: State, actor: nat, due: seq<Node>, id: nat)
    requires Accounted(s) && Enabled(s, Visit(actor, due))
    requires id < s.next && !IsHanded(s.handed + Handoffs(due, s.pc.now), id)
    ensures exists a: nat, e :: InQueue(Next(s, Visit(actor, due)).queues, a, e) && e.data == id
  {
    VisitMoves(s, actor, due);
    HandedConcat(s.handed, due, s.pc.now, id);
    var a: nat, e :| InQueue(s.queues, a, e) && e.data == id;
    assert forall k :: 0 <= k < |due| ==> due[k].data != id;
    assert InQueue(Next(s, Visit(actor, due)).queues, a, e);
  }

  lemma VisitKeepsAccounted(s: State, actor: nat, due: seq<Node>)
    requires Accounted(s) && Enabled(s, Visit(actor, due))
    ensures Accounted(Next(s, Visit(actor, due)))
  {
    hide OnceEach, HandedOnce, DueBatch;
    var s' := Next(s, Visit(actor, due));
    VisitMoves(s, actor, due);
    AppendKeepsHandedOnce(s.handed, due, s.pc.now, s.next);
    forall a: nat, e | InQueue(s'.queues, a, e)
      ensures e.data < s'.next && !IsHanded(s'.handed, e.data)
    {
      VisitLeavesPending(s, actor, due, a, e);
    }
    forall id: nat | id < s'.next && !IsHanded(s'.handed, id)
      ensures exists a: nat, e :: InQueue(s'.queues, a, e) && e.data == id
    {
      VisitLosesNone(s, actor, due, id);
    }
  }

  lemma SameQueuesKeepAccounted(s: State, s': State)
    requires Accounted(s) && s'.next == s.next && s'.handed == s.handed
    requires s'.queues == s.queues || s'.queues == s.queues + [multiset{}]
    ensures Accounted(s')
  {
    forall actor: nat, e
      ensures InQueue(s'.queues, actor, e) <==> InQueue(s.queues, actor, e)
    {
    }
    forall id: nat | id < s'.next && !IsHanded(s'.handed, id)
      ensures exists actor: nat, e :: InQueue(s'.queues, actor, e) && e.data == id
    {
      var actor: nat, e :| InQueue(s.queues, actor, e) && e.data == id;
      assert InQueue(s'.queues, actor, e);
    }
  }

  lemma StepKeepsAccounted(s: State, a: Action)
    requires Accounted(s) && Enabled(s, a)
    ensures Accounted(Next(s, a))
  {
    if a.Insert? { InsertKeepsAccounted(s, a.p, a.actor, a.key); }
    else if a.Visit? { VisitKeepsAccounted(s, a.actor, a.due); }
    else { SameQueuesKeepAccounted(s, Next(s, a)); }
  }

  lemma StepKeepsNoneEarly(s: State, a: Action)
    requires NoneEarly(s) && Enabled(s, a)
    ensures NoneEarly(Next(s, a))
  {
    if a.Visit? {
      var s' := Next(s, a);
      forall i | 0 <= i < |s'.handed|
        ensures AtMost(s'.handed[i].task.key, s'.handed[i].now)
      {
        if |s.handed| <= i { assert a.due[i - |s.handed|] in a.due; }
      }
    }
  }

  lemma VisitHandsOff(queue: multiset<Node>, now: Timespec, due: seq<Node>, e: Node)
    requires DueBatch(queue, now, due) && e in queue && AtMost(e.key, now)
    ensures exists k :: 0 <= k < |due| && due[k].data == e.data
  {
    DueBatchIsExact(queue, now, due, e);
    assert e in multiset(due);
    assert e in due;
    var k :| 0 <= k < |due| && due[k] == e;
  }

  lemma StepKeepsPassCovers(s: State, a: Action)
    requires Shaped(s) && PassCovers(s) && Enabled(s, a)
    ensures PassCovers(Next(s, a))
  {
    var s' := Next(s, a);
    if PassOf(s'.pc).InPass? && !a.BeginPass? {
      var pass, pass' := PassOf(s.pc), PassOf(s'.pc);
      forall actor: nat, e |
          InQueue(pass'.queues0, actor, e) && actor in pass'.todo
        ensures InQueue(s'.queues, actor, e)
      {
        assert InQueue(s.queues, actor, e);
      }
      forall actor: nat, e |
          InQueue(pass'.queues0, actor, e) && actor in pass'.active0 - pass'.todo && AtMost(e.key, pass'.now)
        ensures IsHanded(s'.handed, e.data)
      {
        if a.Visit? {
          HandedConcat(s.handed, a.due, s.pc.now, e.data);
          if actor == a.actor && actor in pass.todo { VisitHandsOff(s.queues[actor], s.pc.now, a.due, e); }
        }
      }
    }
  }

  // ---------- every run ----------

  ghost predicate Invariant(s: State) {
    Shaped(s) && NotStranded(s) && RefsMatch(s) && Accounted(s) && NoneEarly(s) && PassCovers(s)
  }

  /** Between passes the active set only grows: by each new actor, and by the actor a producer
      announces. */
  lemma ActiveGrowsBetweenPasses(s: State, a: Action)
    requires Shaped(s) && Enabled(s, a) && s.pc.Asleep?
    ensures forall actor: nat :: actor in Next(s, a).active <==>
      || actor in s.active
      || (a.NewActor? && actor == |s.queues|)
      || (a.Activate? && s.producers[a.p] == Queued(actor))
  {
  }

  lemma {:induction false} RunsKeepInvariant(trace: seq<State>, actions: seq<Action>, i: nat)
    requires IsRun(trace, actions) && i <= |actions|
    ensures Invariant(trace[i])
    decreases i
  {
    if i > 0 {
      RunsKeepInvariant(trace, actions, i - 1);
      var s, a := trace[i - 1], actions[i - 1];
      StepKeepsShape(s, a);
      StepKeepsNotStranded(s, a);
      StepKeepsRefs(s, a);
      StepKeepsAccounted(s, a);
      StepKeepsNoneEarly(s, a);
      StepKeepsPassCovers(s, a);
    }
  }

  /** In every interleaving an actor with queued work is in the active set, or a producer that
      queued work there has yet to add it; a set member on its way out counts only through such
      a producer. */
  lemma NoActorIsStranded(trace: seq<State>, actions: seq<Action>, i: nat, actor: nat)
    requires IsRun(trace, actions) && i <= |actions|
    requires actor < |trace[i].queues| && trace[i].queues[actor] != multiset{}
    ensures ProducerOnItsWay(trace[i], actor) || (actor in trace[i].active && !Leaving(trace[i], actor))
  {
    RunsKeepInvariant(trace, actions, i);
  }

  /** Between passes, and between the visits of a pass, the scheduler holds exactly one reference
      per member of the active set and none on other actors. */
  lemma OneReferencePerMember(trace: seq<State>, actions: seq<Action>, i: nat, actor: nat)
    requires IsRun(trace, actions) && i <= |actions| && actor < |trace[i].queues|
    requires !trace[i].pc.Erasing?
    ensures actor < |trace[i].refs| && trace[i].refs[actor] == if actor in trace[i].active then 1 else 0
  {
    RunsKeepInvariant(trace, actions, i);
  }

  /** Over every run no task is handed off before its time, none twice, and none is lost. */
  lemma TasksGoOutOnceAndOnTime(trace: seq<State>, actions: seq<Action>, i: nat)
    requires IsRun(trace, actions) && i <= |actions|
    ensures forall k :: 0 <= k < |trace[i].handed| ==> AtMost(trace[i].handed[k].task.key, trace[i].handed[k].now)
    ensures forall j, k :: 0 <= j < k < |trace[i].handed| ==>
      trace[i].handed[j].task.data != trace[i].handed[k].task.data
    ensures forall id: nat {:trigger IsHanded(trace[i].handed, id)} :: id < trace[i].next ==>
      (IsHanded(trace[i].handed, id) <==> !exists actor: nat, e :: InQueue(trace[i].queues, actor, e) && e.data == id)
  {
    RunsKeepInvariant(trace, actions, i);
  }

  lemma RunStep(trace: seq<State>, actions: seq<Action>, i: nat)
    requires IsRun(trace, actions) && i < |actions|
    ensures |trace| == |actions| + 1 && Invariant(trace[i]) && Invariant(trace[i + 1])
    ensures Enabled(trace[i], actions[i]) && trace[i + 1] == Next(trace[i], actions[i])
  {
    RunsKeepInvariant(trace, actions, i);
    RunsKeepInvariant(trace, actions, i + 1);
  }

  // ---------- what one pass does ----------

  /** A pass begins at step b and lasts at least to step i. */
  ghost predicate PassFrom(actions: seq<Action>, b: nat, i: nat) {
    && b < i <= |actions| && actions[b].BeginPass?
    && forall k :: b < k < i ==> !actions[k].BeginPass? && !actions[k].EndPass?
  }

  lemma StepKeepsPass(s: State, a: Action)
    requires Shaped(s) && Enabled(s, a) && !a.BeginPass? && !a.EndPass? && PassOf(s.pc).InPass?
    ensures var pass, pass' := PassOf(s.pc), PassOf(Next(s, a).pc);
      && pass'.InPass? && pass'.now == pass.now && pass'.queues0 == pass.queues0 && pass'.active0 == pass.active0
      && pass'.todo == if a.Visit? then pass.todo - {a.actor} else pass.todo
  {
  }

  ghost predicate Visits(a: Action, actor: nat) { a.Visit? && a.actor == actor }

  ghost predicate VisitedIn(actions: seq<Action>, b: nat, i: nat, actor: nat)
    requires i <= |actions|
  {
    exists t :: b < t < i && Visits(actions[t], actor)
  }

  /** The scheduler goes by the time, the queues and the members of the state the pass began in,
      and still has to visit those it has not. */
  lemma {:induction false} PassRemembers(trace: seq<State>, actions: seq<Action>, b: nat, i: nat)
    requires IsRun(trace, actions) && |trace| == |actions| + 1 && PassFrom(actions, b, i)
    ensures var pass := PassOf(trace[i].pc);
      && pass.InPass? && pass.now == actions[b].now
      && pass.queues0 == trace[b].queues && pass.active0 == trace[b].active
      && forall actor: nat :: actor in pass.todo <==> actor in trace[b].active && !VisitedIn(actions, b, i, actor)
    decreases i
  {
    RunStep(trace, actions, i - 1);
    if b < i - 1 {
      PassRemembers(trace, actions, b, i - 1);
      StepKeepsPass(trace[i - 1], actions[i - 1]);
      forall actor: nat
        ensures VisitedIn(actions, b, i, actor) <==>
          VisitedIn(actions, b, i - 1, actor) || Visits(actions[i - 1], actor)
      {
      }
    }
  }

  /** A completed pass has visited every actor that was in the active set when it began. */
  lemma PassVisitsAll(trace: seq<State>, actions: seq<Action>, b: nat, i: nat, actor: nat)
    requires IsRun(trace, actions) && i < |actions| && PassFrom(actions, b, i) && actions[i].EndPass?
    requires |trace| == |actions| + 1 && actor in trace[b].active
    ensures VisitedIn(actions, b, i, actor)
  {
    RunStep(trace, actions, i);
    PassRemembers(trace, actions, b, i);
  }

  /** And it has handed off every task that was due, at the time it read, when it began. */
  lemma PassHandsOffAllDue(trace: seq<State>, actions: seq<Action>, b: nat, i: nat, actor: nat, e: Node)
    requires IsRun(trace, actions) && i < |actions| && PassFrom(actions, b, i) && actions[i].EndPass?
    requires |trace| == |actions| + 1 && actor in trace[b].active
    requires InQueue(trace[b].queues, actor, e) && AtMost(e.key, actions[b].now)
    ensures IsHanded(trace[i].handed, e.data)
  {
    RunStep(trace, actions, i);
    PassRemembers(trace, actions, b, i);
  }

  /** What a pass hands off, it hands off with the time it read. */
  lemma {:induction false} PassHandsOffAtItsTime(trace: seq<State>, actions: seq<Action>, b: nat, i: nat)
    requires IsRun(trace, actions) && |trace| == |actions| + 1 && PassFrom(actions, b, i)
    ensures trace[b].handed <= trace[i].handed
    ensures forall m :: |trace[b].handed| <= m < |trace[i].handed| ==> trace[i].handed[m].now == actions[b].now
    decreases i
  {
    RunStep(trace, actions, i - 1);
    if b < i - 1 {
      PassHandsOffAtItsTime(trace, actions, b, i - 1);
      PassRemembers(trace, actions, b, i - 1);
    }
  }

  /** A visit of that actor left its queue empty. */
  ghost predicate Empties(trace: seq<State>, actions: seq<Action>, t: nat, actor: nat)
    requires |trace| == |actions| + 1 && t < |actions|
  {
    Visits(actions[t], actor) && actor < |trace[t + 1].queues| && trace[t + 1].queues[actor] == multiset{}
  }

  ghost predicate EmptiedIn(trace: seq<State>, actions: seq<Action>, b: nat, i: nat, actor: nat)
    requires |trace| == |actions| + 1 && i <= |actions|
  {
    exists t :: b < t < i && Empties(trace, actions, t, actor)
  }

  ghost predicate Stays(s: State, actor: nat) {
    actor in s.active && !Leaving(s, actor)
  }

  lemma StepKeepsStaying(s: State, a: Action, actor: nat)
    requires Shaped(s) && Enabled(s, a) && !a.BeginPass? && !a.EndPass? && PassOf(s.pc).InPass?
    ensures Stays(Next(s, a), actor) <==>
      Stays(s, actor) && !(Visits(a, actor) && actor < |Next(s, a).queues| && Next(s, a).queues[actor] == multiset{})
  {
  }

  lemma EmptiedNext(trace: seq<State>, actions: seq<Action>, b: nat, i: nat, actor: nat)
    requires |trace| == |actions| + 1 && b < i < |actions|
    ensures EmptiedIn(trace, actions, b, i + 1, actor) <==>
      EmptiedIn(trace, actions, b, i, actor) || Empties(trace, actions, i, actor)
  {
  }

  lemma BeginKeepsAll(s: State, now: Timespec, actor: nat)
    requires Enabled(s, BeginPass(now))
    ensures Stays(Next(s, BeginPass(now)), actor) <==> actor in s.active
  {
  }

  lemma {:induction false} StayingSoFar(trace: seq<State>, actions: seq<Action>, b: nat, i: nat, actor: nat)
    requires IsRun(trace, actions) && |trace| == |actions| + 1 && PassFrom(actions, b, i)
    ensures Stays(trace[i], actor) <==> actor in trace[b].active && !EmptiedIn(trace, actions, b, i, actor)
    decreases i
  {
    hide IsRun, Shaped, NotStranded, RefsMatch, Accounted, NoneEarly, PassCovers, Enabled, Next, Stays;
    RunStep(trace, actions, i - 1);
    if b < i - 1 {
      StayingSoFar(trace, actions, b, i - 1, actor);
      PassRemembers(trace, actions, b, i - 1);
      StepKeepsStaying(trace[i - 1], actions[i - 1], actor);
      EmptiedNext(trace, actions, b, i - 1, actor);
    } else {
      BeginKeepsAll(trace[b], actions[b].now, actor);
    }
  }

  /** A completed pass takes out of the active set exactly the actors whose queue its visit left
      empty. */
  lemma PassDropsIdle(trace: seq<State>, actions: seq<Action>, b: nat, i: nat, actor: nat)
    requires IsRun(trace, actions) && i < |actions| && PassFrom(actions, b, i) && actions[i].EndPass?
    requires |trace| == |actions| + 1
    ensures actor in trace[i + 1].active <==> actor in trace[b].active && !EmptiedIn(trace, actions, b, i, actor)
  {
    RunStep(trace, actions, i);
    StayingSoFar(trace, actions, b, i, actor);
  }

  // ---------- what one call gets ----------

  /** Step t visits the actor, in a pass that read a time of at least key. */
  ghost predicate DueVisit(actions: seq<Action>, b: nat, t: nat, actor: nat, key: Timespec) {
    && t < |actions| && PassFrom(actions, b, t) && Visits(actions[t], actor) && AtMost(key, actions[b].now)
  }

  ghost predicate CameDue(actions: seq<Action>, k: nat, i: nat, actor: nat, key: Timespec) {
    exists b: nat, t: nat :: k < t < i && DueVisit(actions, b, t, actor, key)
  }

  lemma InPassBefore(s: State, a: Action)
    requires Shaped(s) && Enabled(s, a) && PassOf(Next(s, a).pc).InPass?
    ensures a.BeginPass? || (PassOf(s.pc).InPass? && !a.EndPass?)
  {
  }

  lemma InitiallyAsleep(trace: seq<State>, actions: seq<Action>)
    requires IsRun(trace, actions)
    ensures |trace| == |actions| + 1 && trace[0].pc == Asleep
  {
  }

  /** Every state inside a pass has a step that began it. */
  lemma {:induction false} PassHasBegun(trace: seq<State>, actions: seq<Action>, i: nat) returns (b: nat)
    requires IsRun(trace, actions) && |trace| == |actions| + 1 && i <= |actions| && PassOf(trace[i].pc).InPass?
    ensures PassFrom(actions, b, i)
    decreases i
  {
    hide IsRun, Shaped, NotStranded, RefsMatch, Accounted, NoneEarly, PassCovers, Enabled, Next;
    InitiallyAsleep(trace, actions);
    RunStep(trace, actions, i - 1);
    InPassBefore(trace[i - 1], actions[i - 1]);
    if actions[i - 1].BeginPass? {
      b := i - 1;
    } else {
      b := PassHasBegun(trace, actions, i - 1);
    }
  }

  /** Two steps cannot both have begun it. */
  lemma PassBeganOnce(actions: seq<Action>, b: nat, c: nat, i: nat)
    requires PassFrom(actions, b, i) && PassFrom(actions, c, i)
    ensures b == c
  {
  }

  lemma InsertQueues(s: State, p: nat, actor: nat, key: Timespec)
    requires Accounted(s) && Enabled(s, Insert(p, actor, key))
    ensures var s' := Next(s, Insert(p, actor, key));
      InQueue(s'.queues, actor, Node(key, s.next)) && !IsHanded(s'.handed, s.next)
  {
  }

  /** One step on a task that is still queued. */
  lemma StepHandsOffIfDue(s: State, a: Action, actor: nat, e: Node)
    requires Accounted(s) && Enabled(s, a) && InQueue(s.queues, actor, e)
    ensures var due := Visits(a, actor) && AtMost(e.key, s.pc.now);
      (IsHanded(Next(s, a).handed, e.data) <==> due) && (due || InQueue(Next(s, a).queues, actor, e))
  {
    hide OnceEach, HandedOnce;
    if a.Visit? {
      VisitMoves(s, a.actor, a.due);
      HandedConcat(s.handed, a.due, s.pc.now, e.data);
      if a.actor == actor {
        DueBatchIsExact(s.queues[actor], s.pc.now, a.due, e);
        assert e in a.due <==> e in multiset(a.due);
      }
    }
  }

  lemma HandedStaysHanded(s: State, a: Action, id: nat)
    requires Enabled(s, a) && IsHanded(s.handed, id)
    ensures IsHanded(Next(s, a).handed, id)
  {
    if a.Visit? { HandedConcat(s.handed, a.due, s.pc.now, id); }
  }

  lemma CameDueNext(trace: seq<State>, actions: seq<Action>, k: nat, i: nat, actor: nat, key: Timespec)
    requires IsRun(trace, actions) && |trace| == |actions| + 1 && k < i < |actions|
    ensures Visits(actions[i], actor) ==> trace[i].pc.InPass?
    ensures CameDue(actions, k, i + 1, actor, key) <==>
      CameDue(actions, k, i, actor, key) || (Visits(actions[i], actor) && AtMost(key, trace[i].pc.now))
  {
    RunStep(trace, actions, i);
    if Visits(actions[i], actor) {
      var b := PassHasBegun(trace, actions, i);
      PassRemembers(trace, actions, b, i);
      if AtMost(key, trace[i].pc.now) {
        assert DueVisit(actions, b, i, actor, key);
      } else {
        forall c: nat | PassFrom(actions, c, i) ensures c == b { PassBeganOnce(actions, b, c, i); }
      }
    }
  }

  /** What callers get, in the terms of the calls alone: a task queued at an actor is handed off
      exactly when a later visit of that actor belongs to a pass that read a time of at least the
      key it was queued with. */
  lemma {:induction false} HandedOffExactlyWhenVisited(trace: seq<State>, actions: seq<Action>, k: nat,
                                                       p: nat, actor: nat, key: Timespec, i: nat)
    requires IsRun(trace, actions) && |trace| == |actions| + 1
    requires k < i <= |actions| && actions[k] == Insert(p, actor, key)
    ensures IsHanded(trace[i].handed, trace[k].next) <==> CameDue(actions, k, i, actor, key)
    ensures CameDue(actions, k, i, actor, key) || InQueue(trace[i].queues, actor, Node(key, trace[k].next))
    decreases i
  {
    hide IsRun, Shaped, NotStranded, RefsMatch, Accounted, NoneEarly, PassCovers, Enabled, Next, IsHanded, DueVisit;
    RunStep(trace, actions, i - 1);
    if i == k + 1 {
      InsertQueues(trace[k], p, actor, key);
    } else {
      var e := Node(key, trace[k].next);
      HandedOffExactlyWhenVisited(trace, actions, k, p, actor, key, i - 1);
      CameDueNext(trace, actions, k, i - 1, actor, key);
      if CameDue(actions, k, i - 1, actor, key) {
        HandedStaysHanded(trace[i - 1], actions[i - 1], e.data);
      } else {
        StepHandsOffIfDue(trace[i - 1], actions[i - 1], actor, e);
      }
    }
  }

  ghost predicate SchedulerCanStep(s: State) {
    || (exists now :: Enabled(s, BeginPass(now))) || Enabled(s, EndPass)
    || Enabled(s, ReleaseActor) || Enabled(s, EraseActor)
    || exists actor, due :: Enabled(s, Visit(actor, due))
  }

  /** The scheduler thread never gets stuck, wherever producers interleave. */
  lemma SchedulerNeverStuck(trace: seq<State>, actions: seq<Action>, i: nat)
    requires IsRun(trace, actions) && i <= |actions|
    ensures SchedulerCanStep(trace[i])
  {
    RunsKeepInvariant(trace, actions, i);
    var s := trace[i];
    match s.pc
    case Asleep => assert Enabled(s, BeginPass(Timespec(0, 0)));
    case InPass(now, todo, _, _) =>
      if actor :| actor in todo {
        var due := DueBatchExists(s.queues[actor], now);
        assert Enabled(s, Visit(actor, due));
      }
    case Releasing(_, _) =>
    case Erasing(_, _) =>
  }
}
