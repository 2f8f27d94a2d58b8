/** The pool allocator of src/poolalloc.c: a free list threaded through the first word of each
    free slot, grown by a block twice the current size whenever it runs empty. */
module PoolAlloc {
  /** An AllocPool.  Slots are numbered 1.. across all blocks and 0 is the null pointer;
      memory[a] is the first word of slot a (memory[0] stands for no slot).  While a slot is
      free that word is its `nextinplacenode`; while it is handed out it is the user's. */
  datatype Pool = Pool(memory: seq<nat>, head: nat, elementCount: nat, blockCount: nat)

  function Pow3(n: nat): nat {
    if n == 0 then 1 else 3 * Pow3(n - 1)
  }

  /** Slots in a pool of that many blocks: each new block triples them. */
  function SlotCount(init: nat, blocks: nat): nat {
    if blocks <= 1 then init else 3 * SlotCount(init, blocks - 1)
  }

  lemma Triple(a: nat, b: nat)
    ensures 3 * (a * b) == a * (3 * b)
  {
  }

  lemma {:induction false} SlotCountIs(init: nat, blocks: nat)
    requires 0 < blocks
    ensures SlotCount(init, blocks) == init * Pow3(blocks - 1) && (0 < init ==> 0 < SlotCount(init, blocks))
    decreases blocks
  {
    if blocks > 1 {
      SlotCountIs(init, blocks - 1);
      Triple(init, Pow3(blocks - 2));
    }
  }

  /** The words of a fresh block of n slots that starts at slot base: each points to the next,
      the last to null. */
  function BlockWords(base: nat, n: nat): seq<nat> {
    seq(n, k => if k + 1 < n then base + k + 1 else 0)
  }

  function Init(elementCount: nat): Pool {
    Pool([0] + BlockWords(1, elementCount), 1, elementCount, 1)
  }

  function AddBlock(p: Pool): Pool {
    if p.head == 0 then
      var n := p.elementCount * 2;
      Pool(p.memory + BlockWords(|p.memory|, n), |p.memory|, p.elementCount + n, p.blockCount + 1)
    else p
  }

  function Alloc(p: Pool): Pool
    requires p.head < |p.memory|
  {
    AddBlock(p.(head := p.memory[p.head]))
  }

  function Free(p: Pool, a: nat): Pool
    requires a < |p.memory|
  {
    p.(memory := p.memory[a := p.head], head := a)
  }

  /** The user of a slot overwrites it. */
  function Write(p: Pool, a: nat, v: nat): Pool
    requires a < |p.memory|
  {
    p.(memory := p.memory[a := v])
  }

  ghost predicate Distinct(s: seq<nat>) {
    forall i, j :: 0 <= i < j < |s| ==> s[i] != s[j]
  }

  /** `list` is the chain that starts at head and ends with null. */
  ghost predicate IsChain(memory: seq<nat>, head: nat, list: seq<nat>) {
    && head == (if list == [] then 0 else list[0])
    && (forall i :: 0 <= i < |list| ==> 0 < list[i] < |memory|)
    && (forall i {:trigger memory[list[i]]} :: 0 <= i < |list| ==>
          memory[list[i]] == if i + 1 < |list| then list[i + 1] else 0)
  }

  /** The free list is a non-empty duplicate-free chain; it and the slots handed out partition
      all slots; the slot count is init * 3^(blocks-1), see SlotCountIs. */
  ghost predicate Partitioned(p: Pool, init: nat, list: seq<nat>, out: set<nat>) {
    && IsChain(p.memory, p.head, list) && Distinct(list)
    && |p.memory| == p.elementCount + 1
    && (forall a :: a in out ==> 0 < a <= p.elementCount)
    && (forall a :: 0 < a <= p.elementCount ==> (a in list <==> a !in out))
    && 0 < init && 0 < p.blockCount && p.elementCount == SlotCount(init, p.blockCount)
  }

  ghost predicate Consistent(p: Pool, init: nat, list: seq<nat>, out: set<nat>) {
    Partitioned(p, init, list, out) && list != []
  }

  ghost function Span(base: nat, n: nat): seq<nat> {
    seq(n, k => base + k)
  }

  lemma InitConsistent(n: nat)
    requires 0 < n
    ensures Consistent(Init(n), n, Span(1, n), {})
  {
    var p, list := Init(n), Span(1, n);
    forall a | 0 < a <= n
      ensures a in list
    {
      assert list[a - 1] == a;
    }
  }

  lemma AddBlockKeeps(p: Pool, init: nat, out: set<nat>)
    requires Partitioned(p, init, [], out)
    ensures Consistent(AddBlock(p), init, Span(|p.memory|, p.elementCount * 2), out)
  {
    var q, base, n := AddBlock(p), |p.memory|, p.elementCount * 2;
    var list := Span(base, n);
    SlotCountIs(init, p.blockCount);
    forall i | 0 <= i < |list|
      ensures q.memory[list[i]] == if i + 1 < |list| then list[i + 1] else 0
    {
      assert q.memory[base + i] == BlockWords(base, n)[i];
    }
    forall a | 0 < a <= q.elementCount
      ensures a in list <==> a !in out
    {
      if a >= base { assert list[a - base] == a; }
    }
  }

  lemma PopKeeps(p: Pool, init: nat, list: seq<nat>, out: set<nat>)
    requires Consistent(p, init, list, out)
    ensures p.head == list[0] && 0 < p.head <= p.elementCount && p.head !in out
    ensures Partitioned(p.(head := p.memory[p.head]), init, list[1..], out + {p.head})
  {
    var q, rest := p.(head := p.memory[p.head]), list[1..];
    assert list[0] in list;
    assert q.head == (if rest == [] then 0 else rest[0]) by { assert p.memory[list[0]] == q.head; }
    forall i | 0 <= i < |rest|
      ensures q.memory[rest[i]] == if i + 1 < |rest| then rest[i + 1] else 0
    {
      assert q.memory[rest[i]] == p.memory[list[i + 1]];
    }
    forall a | 0 < a <= q.elementCount
      ensures a in rest <==> a !in out + {p.head}
    {
      assert a in list <==> a == list[0] || a in rest;
    }
  }

  /** AllocPool_Alloc hands out a slot nobody holds and leaves a free slot behind. */
  lemma AllocKeeps(p: Pool, init: nat, list: seq<nat>, out: set<nat>) returns (list': seq<nat>)
    requires Consistent(p, init, list, out)
    ensures p.head == list[0] && 0 < p.head <= p.elementCount && p.head !in out
    ensures Consistent(Alloc(p), init, list', out + {p.head})
    ensures |list| > 1 ==> list' == list[1..]
  {
    PopKeeps(p, init, list, out);
    var q := p.(head := p.memory[p.head]);
    if |list| == 1 {
      AddBlockKeeps(q, init, out + {p.head});
      list' := Span(|q.memory|, q.elementCount * 2);
    } else {
      list' := list[1..];
    }
  }

  lemma FreeKeeps(p: Pool, init: nat, list: seq<nat>, out: set<nat>, a: nat)
    requires Consistent(p, init, list, out) && a in out
    ensures Consistent(Free(p, a), init, [a] + list, out - {a})
  {
    var q, list' := Free(p, a), [a] + list;
    assert a !in list;
    forall i | 0 <= i < |list'|
      ensures q.memory[list'[i]] == if i + 1 < |list'| then list'[i + 1] else 0
    {
      if i > 0 { assert list'[i] == list[i - 1] && list[i - 1] in list; }
    }
    forall b | 0 < b <= q.elementCount
      ensures b in list' <==> b !in out - {a}
    {
      assert b in list' <==> b == a || b in list;
    }
  }

  lemma ChainUntouched(memory: seq<nat>, head: nat, list: seq<nat>, a: nat, v: nat)
    requires IsChain(memory, head, list) && a < |memory| && a !in list
    ensures IsChain(memory[a := v], head, list)
  {
    forall i | 0 <= i < |list|
      ensures memory[a := v][list[i]] == if i + 1 < |list| then list[i + 1] else 0
    {
      assert list[i] in list;
    }
  }

  lemma WriteKeeps(p: Pool, init: nat, list: seq<nat>, out: set<nat>, a: nat, v: nat)
    requires Consistent(p, init, list, out) && a in out
    ensures Consistent(Write(p, a, v), init, list, out)
  {
    ChainUntouched(p.memory, p.head, list, a, v);
  }

  // ---------- runs ----------

  datatype Op = DoAlloc | DoFree(a: nat) | DoWrite(a: nat, v: nat)

  /** Users free and overwrite only what they were handed. */
  ghost predicate Legal(op: Op, out: set<nat>) {
    match op
    case DoAlloc => true
    case DoFree(a) => a in out
    case DoWrite(a, _) => a in out
  }

  ghost predicate InRange(p: Pool, out: set<nat>) {
    p.head < |p.memory| && forall a :: a in out ==> a < |p.memory|
  }

  ghost function Step(p: Pool, out: set<nat>, op: Op): (Pool, set<nat>)
    requires InRange(p, out) && Legal(op, out)
  {
    match op
    case DoAlloc => (Alloc(p), out + {p.head})
    case DoFree(a) => (Free(p, a), out - {a})
    case DoWrite(a, v) => (Write(p, a, v), out)
  }

  /** The states a pool passes through, with the slots handed out in each. */
  ghost predicate IsRun(trace: seq<(Pool, set<nat>)>, ops: seq<Op>, init: nat) {
    && |trace| == |ops| + 1
    && trace[0] == (Init(init), {})
    && forall i :: 0 <= i < |ops| ==>
        && InRange(trace[i].0, trace[i].1) && Legal(ops[i], trace[i].1)
        && trace[i + 1] == Step(trace[i].0, trace[i].1, ops[i])
  }

  /** Over every run the free list and the slots handed out partition the pool, and every
      allocation hands out a slot that nobody holds. */
  lemma {:induction false} RunsStayConsistent(trace: seq<(Pool, set<nat>)>, ops: seq<Op>, init: nat, i: nat)
      returns (list: seq<nat>)
    requires 0 < init && IsRun(trace, ops, init) && i <= |ops|
    ensures Consistent(trace[i].0, init, list, trace[i].1)
    ensures trace[i].0.elementCount == init * Pow3(trace[i].0.blockCount - 1)
    ensures i < |ops| && ops[i].DoAlloc? ==>
      trace[i].0.head !in trace[i].1 && trace[i + 1].1 == trace[i].1 + {trace[i].0.head}
    decreases i
  {
    if i == 0 {
      InitConsistent(init);
      list := Span(1, init);
    } else {
      var before := RunsStayConsistent(trace, ops, init, i - 1);
      var (p, out) := trace[i - 1];
      assert trace[i] == Step(p, out, ops[i - 1]);
      match ops[i - 1]
      case DoAlloc => list := AllocKeeps(p, init, before, out);
      case DoFree(a) => FreeKeeps(p, init, before, out, a); list := [a] + before;
      case DoWrite(a, v) => WriteKeeps(p, init, before, out, a, v); list := before;
    }
    assert list[0] in list;
    SlotCountIs(init, trace[i].0.blockCount);
  }

  // ---------- the allocator ----------

  /** struct AllocPool.  The critical section of each method is one atomic step. */
  class AllocPool {
    const elementSize: int
    var memory: seq<nat>
    var head: nat
    var elementCount: nat
    var blockCount: nat
    ghost const init: nat
    ghost var list: seq<nat>
    ghost var out: set<nat>

    ghost function State(): Pool
      reads this
    {
      Pool(memory, head, elementCount, blockCount)
    }

    ghost predicate Valid()
      reads this
    {
      Consistent(State(), init, list, out)
    }

    /** PoolMemBlock_Init (src/poolalloc.c:109-125). */
    static method LinkBlock(base: nat, n: nat) returns (words: seq<nat>)
      requires 0 < n
      ensures words == BlockWords(base, n)
    {
      words := [];
      var idx := 0;
      while idx < n - 1
        invariant 0 <= idx <= n - 1 && |words| == idx
        invariant forall k :: 0 <= k < idx ==> words[k] == base + k + 1
      {
        words := words + [base + idx + 1];
        idx := idx + 1;
      }
      words := words + [0];
    }

    /** AllocPool_Init (src/poolalloc.c:127-140). */
    constructor (count: nat, size: int)
      requires 0 < count
      ensures Valid() && elementSize == size && out == {} && State() == Init(count)
    {
      elementSize := size;
      elementCount := count;
      var words := LinkBlock(1, count);
      memory := [0] + words;
      head := 1;
      blockCount := 1;
      init, list, out := count, Span(1, count), {};
      InitConsistent(count);
    }

    /** AllocPool_AddBlock (src/poolalloc.c:142-160). */
    method Grow()
      requires 0 < elementCount
      modifies `memory, `head, `elementCount, `blockCount
      ensures State() == AddBlock(old(State()))
    {
      if head == 0 {
        var words := LinkBlock(|memory|, elementCount * 2);
        head := |memory|;
        memory := memory + words;
        elementCount := elementCount + elementCount * 2;
        blockCount := blockCount + 1;
      }
    }

    /** AllocPool_Alloc (src/poolalloc.c:162-177). */
    method Take() returns (slot: nat)
      requires Valid()
      modifies this
      ensures Valid() && State() == Alloc(old(State()))
      ensures 0 < slot <= elementCount && slot !in old(out) && out == old(out) + {slot}
    {
      ghost var list' := AllocKeeps(State(), init, list, out);
      slot := head;
      head := memory[slot];
      if head == 0 {
        Grow();
      }
      list, out := list', out + {slot};
    }

    /** AllocPool_Free (src/poolalloc.c:179-188). */
    method Return(slot: nat)
      requires Valid() && slot in out
      modifies this
      ensures Valid() && State() == Free(old(State()), slot)
      ensures out == old(out) - {slot}
    {
      FreeKeeps(State(), init, list, out, slot);
      memory := memory[slot := head];
      head := slot;
      list, out := [slot] + list, out - {slot};
    }

    /** What the holder of a slot may do to it. */
    method Overwrite(slot: nat, v: nat)
      requires Valid() && slot in out
      modifies this
      ensures Valid() && State() == Write(old(State()), slot, v) && out == old(out)
    {
      WriteKeeps(State(), init, list, out, slot, v);
      memory := memory[slot := v];
    }
  }

  /** struct MemoryPool: one AllocPool per block size. */
  class MemoryPool {
    var pools: seq<AllocPool>
    const defaultCount: nat

    ghost predicate Valid()
      reads this, pools
    {
      && 0 < defaultCount
      && (forall i :: 0 <= i < |pools| ==> pools[i].Valid())
      && (forall i, j :: 0 <= i < j < |pools| ==> pools[i] != pools[j] && pools[i].elementSize != pools[j].elementSize)
    }

    /** MemoryPool_Init (src/poolalloc.c:8-15). */
    constructor (capacity: nat)
      requires 0 < capacity
      ensures Valid() && pools == []
    {
      pools := [];
      defaultCount := capacity;
    }

    /** MemoryPool_FindAllocPool (src/poolalloc.c:17-32): the index of the only pool of that size,
        or -1. */
    method FindAllocPool(blockSize: int) returns (r: int)
      ensures -1 <= r < |pools|
      ensures r >= 0 ==> pools[r].elementSize == blockSize
      ensures r == -1 ==> forall i :: 0 <= i < |pools| ==> pools[i].elementSize != blockSize
    {
      var idx := 0;
      while idx < |pools|
        invariant 0 <= idx <= |pools|
        invariant forall i :: 0 <= i < idx ==> pools[i].elementSize != blockSize
      {
        if blockSize == pools[idx].elementSize {
          return idx;
        }
        idx := idx + 1;
      }
      return -1;
    }

    /** MemoryPool_AddBlockSizePool (src/poolalloc.c:66-90). */
    method AddBlockSizePool(blockSize: int) returns (added: AllocPool)
      requires Valid()
      requires forall i :: 0 <= i < |pools| ==> pools[i].elementSize != blockSize
      modifies `pools
      ensures Valid() && added.Valid() && fresh(added) && pools == old(pools) + [added]
      ensures added.elementSize == blockSize && added.out == {}
    {
      added := new AllocPool(defaultCount, blockSize);
      pools := pools + [added];
    }

    /** MemoryPool_Alloc (src/poolalloc.c:34-53): a slot of a pool of that size; a new pool only
        when no pool has that size. */
    method Take(blockSize: int) returns (owner: AllocPool, slot: nat)
      requires Valid()
      modifies this, pools
      ensures Valid() && owner in pools && owner.elementSize == blockSize
      ensures slot in owner.out
      ensures if exists ap :: ap in old(pools) && ap.elementSize == blockSize
              then pools == old(pools) && slot !in old(owner.out) && owner.out == old(owner.out) + {slot}
              else fresh(owner) && pools == old(pools) + [owner] && owner.out == {slot}
      ensures forall ap :: ap in old(pools) && ap != owner ==> ap.State() == old(ap.State()) && ap.out == old(ap.out)
    {
      var k := FindAllocPool(blockSize);
      if k >= 0 {
        owner := pools[k];
      } else {
        owner := AddBlockSizePool(blockSize);
      }
      slot := owner.Take();
    }

    /** MemoryPool_Free (src/poolalloc.c:55-64): a slot freed with the size it was allocated
        with goes back to the pool it came from. */
    method Return(blockSize: int, ghost owner: AllocPool, slot: nat)
      requires Valid()
      requires owner in pools && owner.elementSize == blockSize && slot in owner.out
      modifies pools
      ensures Valid() && owner.State() == Free(old(owner.State()), slot)
      ensures owner.out == old(owner.out) - {slot}
      ensures forall ap :: ap in pools && ap != owner ==> ap.State() == old(ap.State()) && ap.out == old(ap.out)
    {
      var k := FindAllocPool(blockSize);
      if k >= 0 {
        pools[k].Return(slot);
      }
    }
  }
}
