/** The growing and shrinking binary min-heap of src/hrt_prioq.c, keyed by `struct timespec`.
    src/prioq.c is the same code over `time_t` keys compared with `>`; it is this class with
    key t written Timespec(t, 0), see SecondsOnly. */
module MinHeap {
  import opened Arith

  datatype Timespec = Timespec(sec: int, nsec: int)

  /** Lexicographic order: seconds first. */
  predicate AtMost(a: Timespec, b: Timespec) {
    a.sec < b.sec || (a.sec == b.sec && a.nsec <= b.nsec)
  }

  function Bit(b: bool): int { if b then 1 else 0 }

  /** src/hrt_prioq.c:35-46, also for seconds or nanoseconds that are negative or not
      normalized. */
  function CmpTs(a: Timespec, b: Timespec): (r: int)
    ensures r == 1 <==> !AtMost(a, b)
    ensures r == 0 <==> a == b
    ensures r == -1 <==> !AtMost(b, a)
  {
    var critA := Bit(a.sec > b.sec) - Bit(a.sec < b.sec);
    if critA != 0 then critA
    else Bit(a.nsec > b.nsec) - Bit(a.nsec < b.nsec)
  }

  const NSEC_PER_SEC := 1_000_000_000

  /** A timestamp as clock_gettime gives it. */
  predicate IsNormal(t: Timespec) { 0 <= t.nsec < NSEC_PER_SEC }

  /** The time it stands for, in nanoseconds. */
  function Nanos(t: Timespec): int { t.sec * NSEC_PER_SEC + t.nsec }

  /** Timestamps of the clock compare as the times they stand for. */
  lemma ComparesTimes(a: Timespec, b: Timespec)
    requires IsNormal(a) && IsNormal(b)
    ensures CmpTs(a, b) == (if Nanos(a) < Nanos(b) then -1 else if Nanos(a) == Nanos(b) then 0 else 1)
    ensures AtMost(a, b) <==> Nanos(a) <= Nanos(b)
  {
  }

  /** Whatever their nanoseconds, the seconds decide where they differ. */
  lemma SecondsDecide(a: Timespec, b: Timespec)
    ensures a.sec > b.sec ==> CmpTs(a, b) == 1
    ensures a.sec < b.sec ==> CmpTs(a, b) == -1
    ensures a.sec == b.sec ==> CmpTs(a, b) == (if a.nsec < b.nsec then -1 else if a.nsec == b.nsec then 0 else 1)
  {
  }

  /** The keys of src/prioq.c compare as plain integers. */
  lemma SecondsOnly(a: int, b: int)
    ensures CmpTs(Timespec(a, 0), Timespec(b, 0)) == 1 <==> a > b
    ensures CmpTs(Timespec(a, 0), Timespec(b, 0)) <= 0 <==> a <= b
  {
  }

  /** `data` is a pointer; 0 is the null pointer. */
  datatype Node = Node(key: Timespec, data: nat)

  const PARAMETER_K := 2
  const SIZE_T := 0x1_0000_0000_0000_0000
  const NODE_SIZE := 24
  const MAX_NODES := 768_614_336_404_564_649

  /** The bytes of an array of that many nodes are a size_t; two more would not be. */
  lemma NodesFitSizeT(capacity: nat)
    requires capacity <= MAX_NODES
    ensures NODE_SIZE * capacity < SIZE_T < NODE_SIZE * (MAX_NODES + 2)
  {
  }

  function Parent(i: int): int
    requires i > 0
  {
    (i - 1) / 2
  }

  /** Heap order on every edge whose upper end is at lo or later. */
  ghost predicate HeapFrom(s: seq<Node>, lo: int) {
    forall j {:trigger Parent(j)} :: 0 < j < |s| && lo <= Parent(j) ==> AtMost(s[Parent(j)].key, s[j].key)
  }

  ghost predicate IsHeap(s: seq<Node>) {
    HeapFrom(s, 0)
  }

  /** Heap order from lo on, except that i may be larger than its children. */
  ghost predicate SinkingAt(s: seq<Node>, lo: int, i: int) {
    && 0 <= lo <= i
    && (forall j {:trigger Parent(j)} :: 0 < j < |s| && lo <= Parent(j) && Parent(j) != i ==>
          AtMost(s[Parent(j)].key, s[j].key))
    && (lo < i && lo <= Parent(i) ==>
          forall j {:trigger Parent(j)} :: 0 < j < |s| && Parent(j) == i ==> AtMost(s[Parent(i)].key, s[j].key))
  }

  /** Heap order, except that i may be smaller than its parent. */
  ghost predicate RisingAt(s: seq<Node>, i: int) {
    && 0 <= i < |s|
    && (forall j {:trigger Parent(j)} :: 0 < j < |s| && j != i ==> AtMost(s[Parent(j)].key, s[j].key))
    && (0 < i ==> forall j {:trigger Parent(j)} :: 0 < j < |s| && Parent(j) == i ==> AtMost(s[Parent(i)].key, s[j].key))
  }

  function Swapped(s: seq<Node>, i: int, j: int): (r: seq<Node>)
    requires 0 <= i < |s| && 0 <= j < |s|
    ensures multiset(r) == multiset(s)
  {
    s[i := s[j]][j := s[i]]
  }

  /** One round of the sift-down: the smaller child goes up. */
  lemma SinkStep(s: seq<Node>, lo: int, i: int, c: int)
    requires SinkingAt(s, lo, i) && 0 < c < |s| && Parent(c) == i
    requires AtMost(s[c].key, s[i].key)
    requires forall j {:trigger Parent(j)} :: 0 < j < |s| && Parent(j) == i ==> AtMost(s[c].key, s[j].key)
    ensures SinkingAt(Swapped(s, i, c), lo, c)
  {
  }

  /** smallest is i or a child of i, and neither i nor a child of i has a smaller key. */
  ghost predicate IsSmallest(s: seq<Node>, i: int, smallest: int) {
    && 0 <= i && (smallest == i || (i < smallest < |s| && Parent(smallest) == i))
    && (i < |s| ==> AtMost(s[smallest].key, s[i].key))
    && (forall j {:trigger Parent(j)} :: 0 < j < |s| && Parent(j) == i ==> AtMost(s[smallest].key, s[j].key))
  }

  /** If that is i itself, nothing is left to sink. */
  lemma SmallestInPlace(s: seq<Node>, lo: int, i: int)
    requires SinkingAt(s, lo, i) && IsSmallest(s, i, i)
    ensures HeapFrom(s, lo)
  {
  }

  /** Beyond the heap neither. */
  lemma NoChildren(s: seq<Node>, i: int, j: int)
    requires 0 <= i && 0 < j < |s| && Parent(j) == i
    ensures i < |s| && (j == 2 * i + 1 || j == 2 * i + 2)
  {
  }

  lemma AppendedRises(s: seq<Node>, n: Node)
    requires IsHeap(s)
    ensures RisingAt(s + [n], |s|)
  {
  }

  lemma RiseStep(s: seq<Node>, i: int)
    requires RisingAt(s, i) && 0 < i && AtMost(s[i].key, s[Parent(i)].key)
    ensures RisingAt(Swapped(s, i, Parent(i)), Parent(i))
  {
    var p, r := Parent(i), Swapped(s, i, Parent(i));
    forall j | 0 < j < |s| && j != p
      ensures AtMost(r[Parent(j)].key, r[j].key)
    {
      if Parent(j) == p && j != i { assert AtMost(s[p].key, s[j].key); }
    }
    if 0 < p {
      forall j | 0 < j < |s| && Parent(j) == p
        ensures AtMost(r[Parent(p)].key, r[j].key)
      {
        assert AtMost(s[Parent(p)].key, s[p].key);
        if j != i { assert AtMost(s[p].key, s[j].key); }
      }
    }
  }

  /** The root of a heap is a least element. */
  lemma {:induction false} RootIsLeast(s: seq<Node>, k: int)
    requires IsHeap(s) && 0 <= k < |s|
    ensures AtMost(s[0].key, s[k].key)
    decreases k
  {
    if k > 0 {
      RootIsLeast(s, Parent(k));
      assert AtMost(s[Parent(k)].key, s[k].key);
    }
  }

  ghost predicate IsLeast(n: Node, contents: multiset<Node>) {
    n in contents && forall other :: other in contents ==> AtMost(n.key, other.key)
  }

  lemma RootIsLeastOfContents(s: seq<Node>)
    requires IsHeap(s) && |s| > 0
    ensures IsLeast(s[0], multiset(s))
  {
    forall other | other in multiset(s)
      ensures AtMost(s[0].key, other.key)
    {
      var k :| 0 <= k < |s| && s[k] == other;
      RootIsLeast(s, k);
    }
  }

  /** A non-empty queue has a least entry. */
  lemma {:induction false} LeastExists(queue: multiset<Node>) returns (least: Node)
    requires queue != multiset{}
    ensures IsLeast(least, queue)
    decreases |queue|
  {
    least :| least in queue;
    var rest := queue - multiset{least};
    if rest != multiset{} {
      var other := LeastExists(rest);
      assert forall e :: e in queue ==> e in rest || e == least;
      if !AtMost(least.key, other.key) { least := other; }
    }
  }

  // (capacity >> 1) - PARAMETER_K in size_t: wraps to a huge limit for a capacity below 4
  function ShrinkLimit(capacity: nat): int {
    (capacity / 2 - PARAMETER_K) % SIZE_T
  }

  function ShrunkCapacity(capacity: nat, len: nat): nat {
    if len < ShrinkLimit(capacity) then capacity / 2 + PARAMETER_K else capacity
  }

  /** The place handed to the sift-up (src/hrt_prioq.c:266) is that of the last node exactly up
      to 2^31 nodes; with one more it is negative. */
  lemma PlaceOfLastNode(len: nat)
    requires 0 < len
    ensures AsInt(len - 1) == len - 1 <==> len <= HALF32
    ensures AsInt(HALF32 + 1 - 1) == -HALF32
  {
    AsIntIsExactBelow2G(len - 1);
  }

  /** The conversion of len - 1 (src/hrt_prioq.c:266). */
  method LastPlace(len: nat) returns (idx: int)
    requires 0 < len <= HALF32
    ensures idx == len - 1
  {
    PlaceOfLastNode(len);
    idx := AsInt(len - 1);
  }

  /** The conversion of (len >> 1) - 1 (src/hrt_prioq.c:133). */
  method LastInnerPlace(len: nat) returns (idx: int)
    requires len / 2 - 1 < HALF32
    ensures idx == len / 2 - 1
  {
    idx := AsInt(len / 2 - 1);
  }

  /** The array never shrinks below its contents, wraparound included. */
  lemma ShrinkKeepsRoom(capacity: nat, len: nat)
    requires len < capacity <= MAX_NODES
    ensures len <= ShrunkCapacity(capacity, len) <= MAX_NODES
    ensures capacity < 4 ==> ShrunkCapacity(capacity, len) == capacity / 2 + PARAMETER_K
    ensures 4 <= capacity ==> ShrunkCapacity(capacity, len) <= capacity
  {
  }

  /** An array of at least 4 is halved, plus two, exactly when it holds 2 * len + 6 nodes or more, so
      that a run of extractions keeps it within twice its contents. */
  lemma ShrinkKeepsTight(capacity: nat, len: nat)
    requires 4 <= capacity <= MAX_NODES
    ensures ShrunkCapacity(capacity, len) == if 2 * len + 6 <= capacity then capacity / 2 + 2 else capacity
    ensures capacity <= 2 * (len + 1) + 5 ==> 4 <= ShrunkCapacity(capacity, len) <= 2 * len + 5
  {
  }

  /** The last node in place of the root. */
  ghost function WithoutRoot(s: seq<Node>): seq<Node>
    requires |s| > 0
  {
    if |s| == 1 then [] else [s[|s| - 1]] + s[1..|s| - 1]
  }

  lemma WithoutRootContents(s: seq<Node>)
    requires |s| > 0
    ensures multiset(WithoutRoot(s)) == multiset(s) - multiset{s[0]}
  {
    if |s| > 1 {
      var mid, last := s[1..|s| - 1], s[|s| - 1];
      assert s == [s[0]] + mid + [last];
      assert multiset(s) == multiset{s[0]} + multiset(mid) + multiset{last};
      assert multiset([last] + mid) == multiset{last} + multiset(mid);
    } else {
      assert s == [s[0]];
    }
  }

  lemma WithoutRootOrder(s: seq<Node>)
    requires |s| > 0 && IsHeap(s)
    ensures HeapFrom(WithoutRoot(s), 1)
  {
  }

  /** struct hrt_prioq; `capacity` is the length of the array. */
  class Heap {
    var nodes: array<Node>
    var len: nat

    ghost predicate Shaped()
      reads this
    {
      len <= nodes.Length <= MAX_NODES
    }

    ghost function Live(): seq<Node>
      requires Shaped()
      reads this, nodes
    {
      nodes[..len]
    }

    ghost function Contents(): multiset<Node>
      requires Shaped()
      reads this, nodes
    {
      multiset(Live())
    }

    ghost predicate Valid()
      reads this, nodes
    {
      Shaped() && IsHeap(Live())
    }

    /** hrt_prioq_create (src/hrt_prioq.c:140-148), for a length whose double is an int. */
    constructor (initial: nat)
      requires initial * 2 < HALF32
      ensures Valid() && fresh(nodes) && Contents() == multiset{} && nodes.Length == initial * 2
    {
      nodes := new Node[initial * 2](_ => Node(Timespec(0, 0), 0));
      len := 0;
    }

    method SwapNodes(i: nat, j: nat)
      requires Shaped() && i < len && j < len
      modifies nodes
      ensures Live() == Swapped(old(Live()), i, j)
    {
      nodes[i], nodes[j] := nodes[j], nodes[i];
    }

    /** The smallest of a node and its children (src/hrt_prioq.c:102-114). */
    method PickSmallest(idx: nat) returns (smallestidx: nat)
      requires Shaped()
      ensures IsSmallest(Live(), idx, smallestidx)
    {
      var leftidx := idx * 2 + 1;
      var rightidx := idx * 2 + 2;
      smallestidx := idx;
      if leftidx < len && CmpTs(nodes[idx].key, nodes[leftidx].key) == 1 {
        smallestidx := leftidx;
      }
      if rightidx < len && CmpTs(nodes[smallestidx].key, nodes[rightidx].key) == 1 {
        smallestidx := rightidx;
      }
      forall j | 0 < j < len && Parent(j) == idx
        ensures AtMost(Live()[smallestidx].key, Live()[j].key)
      {
        NoChildren(Live(), idx, j);
      }
    }

    /** hrt_min_heapify_it (src/hrt_prioq.c:95-124). */
    method Heapify(start: nat)
      requires Shaped() && HeapFrom(Live(), start + 1)
      modifies nodes
      ensures HeapFrom(Live(), start) && Contents() == old(Contents())
    {
      var idx := start;
      var go := true;
      ghost var s := Live();
      while go
        invariant start <= idx && s == Live()
        invariant if go then SinkingAt(s, start, idx) else HeapFrom(s, start)
        invariant multiset(s) == old(Contents())
        decreases go, len - idx
      {
        var smallestidx := PickSmallest(idx);
        if smallestidx == idx { SmallestInPlace(s, start, idx); }
        go := idx < len && smallestidx != idx;
        if go {
          SinkStep(s, start, idx, smallestidx);
          SwapNodes(idx, smallestidx);
          s := Swapped(s, idx, smallestidx);
          idx := smallestidx;
        }
      }
    }

    /** hrt_prioq_buildminheap (src/hrt_prioq.c:126-138): turns any array into a heap. */
    method BuildMinHeap()
      requires Shaped() && len / 2 - 1 < HALF32
      modifies nodes
      ensures Valid() && Contents() == old(Contents())
    {
      var idx := LastInnerPlace(len);
      while idx >= 0
        invariant -1 <= idx && (idx < len || len == 0)
        invariant HeapFrom(Live(), idx + 1)
        invariant Contents() == old(Contents())
        decreases idx
      {
        Heapify(idx);
        idx := idx - 1;
      }
    }

    /** hrt_prioq_decreasekey (src/hrt_prioq.c:150-173); idx is an int. */
    method DecreaseKey(idx: int, node: Node)
      requires Shaped() && 0 <= idx < HALF32 && RisingAt(Live(), idx) && node == nodes[idx]
      modifies nodes
      ensures IsHeap(Live()) && Contents() == old(Contents())
    {
      if CmpTs(node.key, nodes[idx].key) <= 0 {
        var i := idx;
        while i > 0
          invariant 0 <= i < len && RisingAt(Live(), i)
          invariant Contents() == old(Contents())
          decreases i
        {
          if CmpTs(nodes[Parent(i)].key, nodes[i].key) == 1 {
            RiseStep(Live(), i);
            SwapNodes(i, Parent(i));
            i := Parent(i);
          } else {
            break;
          }
        }
      }
    }

    /** trealloc of the array to another capacity; its size in bytes does not wrap. */
    method Reallocate(capacity: nat)
      requires Shaped() && len <= capacity <= MAX_NODES
      modifies this`nodes
      ensures NODE_SIZE * capacity < SIZE_T
      ensures Shaped() && fresh(nodes) && nodes.Length == capacity && Live() == old(Live())
    {
      NodesFitSizeT(capacity);
      var grown := new Node[capacity](_ => Node(Timespec(0, 0), 0));
      forall k | 0 <= k < len { grown[k] := nodes[k]; }
      nodes := grown;
    }

    /** Enlarges a full array (src/hrt_prioq.c:253-262). */
    method EnsureRoom()
      requires Valid() && len < HALF32
      modifies this`nodes
      ensures Valid() && Live() == old(Live()) && (nodes == old(nodes) || fresh(nodes)) && len < nodes.Length
      ensures nodes.Length == if len == old(nodes.Length) then old(nodes.Length) * 2 + PARAMETER_K
                              else old(nodes.Length)
    {
      if len == nodes.Length {
        Reallocate(nodes.Length * 2 + PARAMETER_K);
      }
    }

    /** Puts a node behind the last one (src/hrt_prioq.c:264-265). */
    method AppendNode(node: Node)
      requires Valid() && len < nodes.Length
      modifies nodes, this`len
      ensures Shaped() && len == old(len) + 1 && Live() == old(Live()) + [node] && RisingAt(Live(), len - 1)
      ensures nodes[len - 1] == node && Contents() == old(Contents()) + multiset{node}
    {
      AppendedRises(Live(), node);
      nodes[len] := node;
      len := len + 1;
      assert Live() == old(Live()) + [node];
    }

    /** hrt_prioq_min_insert (src/hrt_prioq.c:250-268), when the enlarged array can be had and
        the place of the new node is an int, see PlaceOfLastNode. */
    method MinInsert(key: Timespec, data: nat)
      requires Valid() && len < HALF32
      modifies this, nodes
      ensures Valid() && (nodes == old(nodes) || fresh(nodes))
      ensures Contents() == old(Contents()) + multiset{Node(key, data)}
      ensures nodes.Length == if old(len) == old(nodes.Length) then old(nodes.Length) * 2 + PARAMETER_K
                              else old(nodes.Length)
    {
      hide IsHeap, RisingAt;
      EnsureRoom();
      AppendNode(Node(key, data));
      var idx := LastPlace(len);
      DecreaseKey(idx, nodes[len - 1]);
    }

    /** Clears the root, exchanges it with the last node and drops it
        (src/hrt_prioq.c:185-195). */
    method DropRoot()
      requires Valid() && len > 0
      modifies nodes, this`len
      ensures Shaped() && len == old(len) - 1
      ensures Live() == WithoutRoot(old(Live()))
    {
      ghost var s := Live();
      nodes[0] := Node(Timespec(0, 0), 0);
      nodes[0], nodes[len - 1] := nodes[len - 1], nodes[0];
      len := len - 1;
      assert Live() == WithoutRoot(s);
    }

    /** hrt_prioq_extract_min (src/hrt_prioq.c:181-212): null for an empty heap, otherwise the
        data of a least node, which alone leaves the heap. */
    method ExtractMin() returns (data: nat)
      requires Valid()
      modifies this, nodes
      ensures Valid() && (nodes == old(nodes) || fresh(nodes))
      ensures old(len) == 0 ==> data == 0 && len == 0 && nodes == old(nodes)
      ensures old(len) > 0 ==>
        && len == old(len) - 1 && nodes.Length == ShrunkCapacity(old(nodes.Length), len)
        && data == old(nodes[0]).data && IsLeast(old(nodes[0]), old(Contents()))
        && Contents() == old(Contents()) - multiset{old(nodes[0])}
    {
      if len > 0 {
        ghost var s := Live();
        RootIsLeastOfContents(s);
        WithoutRootContents(s);
        WithoutRootOrder(s);
        data := nodes[0].data;
        DropRoot();
        ShrinkKeepsRoom(nodes.Length, len);
        if len < ShrinkLimit(nodes.Length) {
          Reallocate(nodes.Length / 2 + PARAMETER_K);
        }
        Heapify(0);
      } else {
        data := 0;
      }
    }

    /** hrt_prioq_get_key_at (src/hrt_prioq.c:67-71) for the root. */
    method MinKey() returns (key: Timespec)
      requires Valid() && len > 0
      ensures key == nodes[0].key && IsLeast(nodes[0], Contents())
    {
      RootIsLeastOfContents(Live());
      key := nodes[0].key;
    }
  }
}
