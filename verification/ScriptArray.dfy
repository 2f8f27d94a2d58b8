/** The script array of src/as_addons/scriptarray.cpp: a buffer whose slots are shifted in place
    or copied to a larger one, with the objects constructed and released slot by slot. */
module ScriptArray {
  import opened Arith

  const BUFFER_HEADER := 12                // sizeof(SArrayBuffer), one data byte included

  type UInt32 = n: nat | n < WORD32

  function Unsigned(n: int): UInt32 { n % WORD32 }

  /** An asUINT read as an int. */
  function Signed(n: UInt32): int { if n < HALF32 then n else n - WORD32 }

  /** Negation of an int, which leaves the least one as it is. */
  function Negated(n: int): int { if n == -HALF32 then n else -n }

  // ---------- widths ----------

  function MaxSize(elementSize: nat): UInt32
    requires 1 <= elementSize
  {
    (WORD32 - 1 - BUFFER_HEADER + 1) / elementSize
  }

  /** CheckMaxSize (754-774) lets through exactly the counts whose buffer has a 32-bit size. */
  lemma CheckIsExact(elementSize: nat, count: nat)
    requires 1 <= elementSize
    ensures count <= MaxSize(elementSize) <==> BUFFER_HEADER - 1 + elementSize * count < WORD32
  {
    var room := WORD32 - BUFFER_HEADER;
    var most := MaxSize(elementSize);
    assert room == most * elementSize + room % elementSize;
    if count <= most {
      MulMono(count, most, elementSize);
    } else {
      MulMono(most + 1, count, elementSize);
    }
  }

  /** The clamp of a removal to the number of elements (686-687). */
  function ClampedRemoval(count: UInt32, delta: int): int {
    if -delta > Signed(count) then Negated(Signed(count)) else delta
  }

  /** The clamp gives the larger of the change and all there is exactly for arrays below 2^31
      elements; for larger ones it turns a removal into something else. */
  lemma ClampIsRightBelowHalf(count: UInt32, delta: int)
    requires 0 < count && -HALF32 < delta < 0
    ensures -ClampedRemoval(count, delta) == (if -delta < count then -delta else count) <==> count < HALF32
    ensures ClampedRemoval(3_000_000_000, -1) == 1_294_967_296
  {
  }

  lemma ClampBelowHalf(count: nat, delta: int)
    requires count < HALF32 && -HALF32 < delta < 0
    ensures -ClampedRemoval(count, delta) == if -delta < count then -delta else count
  {
    if count > 0 { ClampIsRightBelowHalf(count, delta); }
  }

  /** Whether the change the public Resize asks for (650), an int, leads from count to size. */
  predicate ResizeReaches(count: UInt32, size: UInt32) {
    var delta := Signed(size) - Signed(count);
    -HALF32 <= delta < HALF32 && (if delta < 0 then ClampedRemoval(count, delta) else delta) == size - count
  }

  /** It does exactly if both are below 2^31, or neither is and the array does not shrink.
      Growing from one element to 3,000,000,000 removes that element instead. */
  lemma ResizeReachesExactly(count: UInt32, size: UInt32)
    ensures ResizeReaches(count, size) <==> (count < HALF32 && size < HALF32) || (HALF32 <= count <= size)
    ensures Signed(3_000_000_000) - Signed(1) < 0 && ClampedRemoval(1, Signed(3_000_000_000) - Signed(1)) == -1
    ensures !ResizeReaches(1, 3_000_000_000)
  {
  }

  /** The change the public Resize asks for. */
  method ChangeTo(count: UInt32, size: UInt32) returns (delta: int)
    requires ResizeReaches(count, size)
    ensures delta == size - count && -HALF32 < delta < HALF32 && (delta < 0 ==> count < HALF32)
  {
    ResizeReachesExactly(count, size);
    delta := Signed(size) - Signed(count);
  }

  /** Elements of two or more bytes never get there. */
  lemma WideElementsStayBelowHalf(elementSize: nat, count: nat)
    requires 2 <= elementSize && count <= MaxSize(elementSize)
    ensures count < HALF32
  {
    CheckIsExact(elementSize, count);
    MulMono(2, elementSize, count);
  }

  /** The size Resize reaches when an array's element count is passed to it as a signed delta
      (830, 694): the sum of the sizes exactly when neither the cast nor the sum wraps. */
  lemma GrowthIsExactWithoutWrap(count: UInt32, added: UInt32)
    ensures Signed(added) >= 0 && Unsigned(count + Signed(added)) == count + added
            <==> added < HALF32 && count + added < WORD32
    ensures Signed(3_000_000_000) < 0
  {
  }

  /** The cap of RemoveRange (668-669). */
  function CappedCount(size: UInt32, start: UInt32, count: UInt32): UInt32
    requires start <= size
  {
    if Unsigned(start + count) > size then size - start else count
  }

  /** The cap removes what is there from start on exactly when start + count does not wrap. */
  lemma CapIsRightWithoutWrap(size: UInt32, start: UInt32, count: UInt32)
    requires start <= size
    ensures CappedCount(size, start, count) == (if count < size - start then count else size - start)
            <==> start + count < WORD32
    ensures CappedCount(10, 4, 0xFFFF_FFFF) == 0xFFFF_FFFF
  {
  }

  // ---------- slots ----------

  /** A slot: which object it holds, and that object's value. */
  datatype Cell<T> = Cell(id: nat, value: T)

  ghost function Ids<T>(s: seq<Cell<T>>): set<nat> {
    if s == [] then {} else Ids(s[..|s| - 1]) + {s[|s| - 1].id}
  }

  /** No object is in two slots. */
  ghost predicate Distinct<T>(s: seq<Cell<T>>) {
    s != [] ==> Distinct(s[..|s| - 1]) && s[|s| - 1].id !in Ids(s[..|s| - 1])
  }

  ghost function Values<T>(s: seq<Cell<T>>): (r: seq<T>)
    ensures |r| == |s| && forall k :: 0 <= k < |s| ==> r[k] == s[k].value
  {
    seq(|s|, k requires 0 <= k < |s| => s[k].value)
  }

  /** New objects with consecutive identities and the given values. */
  ghost function NewCells<T>(first: nat, values: seq<T>): (r: seq<Cell<T>>)
    ensures |r| == |values|
    ensures forall k :: 0 <= k < |r| ==> r[k] == Cell(first + k, values[k])
  {
    seq(|values|, k requires 0 <= k < |values| => Cell(first + k, values[k]))
  }

  /** n identities from first on. */
  ghost function Fresh(first: nat, n: nat): (r: set<nat>)
    ensures forall id :: id in r <==> first <= id < first + n
  {
    if n == 0 then {} else Fresh(first, n - 1) + {first + n - 1}
  }

  ghost function Repeat<T>(value: T, n: nat): (r: seq<T>)
    ensures |r| == n && forall k :: 0 <= k < n ==> r[k] == value
  {
    seq(n, _ => value)
  }

  ghost function Inserted<T>(s: seq<T>, at: nat, mid: seq<T>): seq<T>
    requires at <= |s|
  {
    s[..at] + mid + s[at..]
  }

  ghost function Removed<T>(s: seq<T>, at: nat, n: nat): seq<T>
    requires at + n <= |s|
  {
    s[..at] + s[at + n..]
  }

  /** The same objects, those from `at` on given the values as far as both reach. */
  ghost function Overlaid<T>(s: seq<Cell<T>>, at: nat, values: seq<T>): (r: seq<Cell<T>>)
    ensures |r| == |s|
    ensures forall k :: 0 <= k < |s| ==> r[k].id == s[k].id
    ensures forall k :: 0 <= k < |s| ==> r[k].value == if at <= k < at + |values| then values[k - at] else s[k].value
  {
    seq(|s|, k requires 0 <= k < |s| =>
      if at <= k < at + |values| then Cell(s[k].id, values[k - at]) else s[k])
  }

  /** What the array holds, which objects are constructed and not yet released, and how many
      were ever constructed. */
  datatype State<T> = State(cells: seq<Cell<T>>, live: set<nat>, issued: nat)

  /** Every slot has an object of its own, and these are exactly the live ones. */
  ghost predicate Accounted<T>(s: State<T>) {
    Distinct(s.cells) && s.live == Ids(s.cells) && forall id :: id in s.live ==> id < s.issued
  }

  /** Sequence insertion; exactly the new slots get new objects. */
  ghost function WithInserted<T>(s: State<T>, at: nat, values: seq<T>): State<T>
    requires at <= |s.cells|
  {
    State(Inserted(s.cells, at, NewCells(s.issued, values)), s.live + Fresh(s.issued, |values|), s.issued + |values|)
  }

  /** Sequence deletion; exactly the objects of the removed slots are released. */
  ghost function WithRemoved<T>(s: State<T>, at: nat, n: nat): State<T>
    requires at + n <= |s.cells|
  {
    State(Removed(s.cells, at, n), s.live - Ids(s.cells[at..at + n]), s.issued)
  }

  /** No object comes or goes. */
  ghost function WithOverlaid<T>(s: State<T>, at: nat, values: seq<T>): State<T> {
    s.(cells := Overlaid(s.cells, at, values))
  }

  lemma {:induction false} JoinedIds<T>(a: seq<Cell<T>>, b: seq<Cell<T>>)
    ensures Ids(a + b) == Ids(a) + Ids(b)
    ensures Distinct(a + b) <==> Distinct(a) && Distinct(b) && Ids(a) !! Ids(b)
    decreases |b|
  {
    if b == [] {
      assert a + b == a;
    } else {
      var front := b[..|b| - 1];
      assert (a + b)[..|a + b| - 1] == a + front;
      JoinedIds(a, front);
    }
  }

  /** Distinctness, pair by pair. */
  lemma {:induction false} DistinctPairs<T>(s: seq<Cell<T>>, i: nat, j: nat)
    requires Distinct(s) && i < j < |s|
    ensures s[i].id != s[j].id
  {
    var front := s[..|s| - 1];
    if j < |s| - 1 {
      DistinctPairs(front, i, j);
    } else {
      assert front == front[..i] + ([front[i]] + front[i + 1..]);
      JoinedIds(front[..i], [front[i]] + front[i + 1..]);
      JoinedIds([front[i]], front[i + 1..]);
    }
  }

  lemma {:induction false} CellIsLive<T>(s: seq<Cell<T>>, i: nat)
    requires i < |s|
    ensures s[i].id in Ids(s)
  {
    if i < |s| - 1 { CellIsLive(s[..|s| - 1], i); }
  }

  lemma {:induction false} SameIds<T>(s: seq<Cell<T>>, r: seq<Cell<T>>)
    requires |s| == |r| && forall k :: 0 <= k < |s| ==> r[k].id == s[k].id
    ensures Ids(r) == Ids(s) && (Distinct(r) <==> Distinct(s))
  {
    if s != [] { SameIds(s[..|s| - 1], r[..|s| - 1]); }
  }

  lemma {:induction false} NewCellsAreNew<T>(first: nat, values: seq<T>)
    ensures Distinct(NewCells(first, values))
    ensures Ids(NewCells(first, values)) == Fresh(first, |values|)
  {
    if values != [] {
      var front := values[..|values| - 1];
      assert NewCells(first, values)[..|values| - 1] == NewCells(first, front);
      NewCellsAreNew(first, front);
    }
  }

  lemma InsertedIds<T>(a: seq<Cell<T>>, mid: seq<Cell<T>>, b: seq<Cell<T>>)
    requires Distinct(a + b) && Distinct(mid) && Ids(a + b) !! Ids(mid)
    ensures Distinct(a + mid + b) && Ids(a + mid + b) == Ids(a + b) + Ids(mid)
  {
    JoinedIds(a, b);
    JoinedIds(a, mid);
    JoinedIds(a + mid, b);
  }

  lemma RemovedIds<T>(a: seq<Cell<T>>, mid: seq<Cell<T>>, b: seq<Cell<T>>)
    requires Distinct(a + mid + b)
    ensures Distinct(a + b) && Ids(a + b) == Ids(a + mid + b) - Ids(mid)
  {
    JoinedIds(a, mid);
    JoinedIds(a + mid, b);
    JoinedIds(a, b);
  }

  lemma InsertionAccounted<T>(s: State<T>, at: nat, values: seq<T>)
    requires Accounted(s) && at <= |s.cells|
    ensures Accounted(WithInserted(s, at, values))
  {
    NewCellsAreNew(s.issued, values);
    assert s.cells == s.cells[..at] + s.cells[at..];
    InsertedIds(s.cells[..at], NewCells(s.issued, values), s.cells[at..]);
  }

  lemma JoinAround<T>(s: seq<T>, at: nat, n: nat)
    requires at + n <= |s|
    ensures s == s[..at] + s[at..at + n] + s[at + n..]
  {
  }

  lemma RemovalAccounted<T>(s: State<T>, at: nat, n: nat)
    requires Accounted(s) && at + n <= |s.cells|
    ensures Accounted(WithRemoved(s, at, n))
  {
    JoinAround(s.cells, at, n);
    RemovedIds(s.cells[..at], s.cells[at..at + n], s.cells[at + n..]);
  }

  lemma OverlayAccounted<T>(s: State<T>, at: nat, values: seq<T>)
    requires Accounted(s)
    ensures Accounted(WithOverlaid(s, at, values))
  {
    SameIds(s.cells, Overlaid(s.cells, at, values));
  }

  /** A new array. */
  lemma FirstCells<T>(values: seq<T>)
    ensures Accounted(State(NewCells(0, values), Fresh(0, |values|), |values|))
  {
    NewCellsAreNew(0, values);
  }

  lemma DeletedAgain<T>(s: seq<T>, at: nat, mid: seq<T>)
    requires at <= |s|
    ensures Removed(Inserted(s, at, mid), at, |mid|) == s && Inserted(s, at, mid)[at..at + |mid|] == mid
  {
    assert s[..at] + s[at..] == s;
  }

  /** Taking out what was put in gives back the array, and releases just what was constructed. */
  lemma RemoveUndoesInsert<T>(s: State<T>, at: nat, values: seq<T>)
    requires Accounted(s) && at <= |s.cells|
    ensures WithRemoved(WithInserted(s, at, values), at, |values|) == s.(issued := s.issued + |values|)
  {
    DeletedAgain(s.cells, at, NewCells(s.issued, values));
    NewCellsAreNew(s.issued, values);
    assert s.live + Fresh(s.issued, |values|) - Fresh(s.issued, |values|) == s.live;
  }

  /** What a script sees of an insertion: a[..i] + values + a[i..]. */
  lemma InsertedValues<T>(s: State<T>, at: nat, values: seq<T>)
    requires at <= |s.cells|
    ensures Values(WithInserted(s, at, values).cells) == Values(s.cells)[..at] + values + Values(s.cells)[at..]
  {
  }

  /** An insertion, slot by slot. */
  lemma InsertedBySlots<T>(s: seq<T>, r: seq<T>, at: nat, mid: seq<T>)
    requires at <= |s| && |r| == |s| + |mid|
    requires forall k :: 0 <= k < at ==> r[k] == s[k]
    requires forall k :: at <= k < at + |mid| ==> r[k] == mid[k - at]
    requires forall k :: at + |mid| <= k < |r| ==> r[k] == s[k - |mid|]
    ensures r == Inserted(s, at, mid)
  {
  }

  lemma NothingChanged<T>(s: State<T>, at: nat, blank: T)
    requires at <= |s.cells|
    ensures WithRemoved(s, at, 0) == s && WithInserted(s, at, Repeat(blank, 0)) == s
  {
    assert s.cells[..at] + s.cells[at..] == s.cells;
    assert NewCells(s.issued, Repeat(blank, 0)) == [];
    assert s.cells[at..at] == [];
  }

  lemma OverlayStep<T>(s: State<T>, at: nat, values: seq<T>, n: nat)
    requires n < |values|
    ensures WithOverlaid(WithOverlaid(s, at, values[..n]), at + n, [values[n]]) == WithOverlaid(s, at, values[..n + 1])
  {
  }

  lemma OverlayNothing<T>(s: State<T>, at: nat)
    ensures WithOverlaid(s, at, []) == s
  {
  }

  /** Writing the values into the gap gives the insertion of new objects with these values. */
  lemma FilledGap<T>(s: State<T>, at: nat, blank: T, values: seq<T>)
    requires at <= |s.cells|
    ensures WithOverlaid(WithInserted(s, at, Repeat(blank, |values|)), at, values) == WithInserted(s, at, values)
  {
  }

  /** The values from before are found around a gap of as many slots. */
  ghost predicate OwnAround<T>(s: seq<Cell<T>>, at: nat, values: seq<T>) {
    && at <= |values| && |s| == 2 * |values|
    && (forall k :: 0 <= k < at ==> s[k].value == values[k])
    && (forall k :: at + |values| <= k < |s| ==> s[k].value == values[k - |values|])
  }

  lemma RoomForOwn<T>(s: State<T>, at: nat, blank: T)
    requires at <= |s.cells|
    ensures OwnAround(WithInserted(s, at, Repeat(blank, |s.cells|)).cells, at, Values(s.cells))
  {
  }

  // ---------- the array ----------

  datatype Outcome = Done | OutOfBounds | TooLarge | Mismatch

  /** The unsigned sum numElements + delta. */
  method SumOf(count: UInt32, delta: int) returns (r: UInt32)
    requires 0 <= count + delta < WORD32
    ensures r == count + delta
  {
    r := Unsigned(count + delta);
  }

  /** CScriptArray of script objects with its SArrayBuffer, which has room for buffer.Length. */
  class CScriptArray<T> {
    const objType: nat
    const maxSize: UInt32                  // MaxSize of the element size
    const blank: T                         // what a default-constructed element holds
    var buffer: array<Cell<T>>
    var numElements: nat
    var live: set<nat>
    var issued: nat

    ghost predicate Shaped()
      reads this
    {
      numElements <= buffer.Length <= maxSize <= WORD32 - BUFFER_HEADER
    }

    ghost function Now(): State<T>
      requires Shaped()
      reads this, buffer
    {
      State(buffer[..numElements], live, issued)
    }

    ghost predicate Valid()
      reads this, buffer
    {
      Shaped() && Accounted(Now())
    }

    /** What callers may rely on: two slots never hold one object. */
    lemma SlotsHoldDistinctObjects(i: nat, j: nat)
      requires Valid() && i < j < numElements
      ensures Now().cells[i].id != Now().cells[j].id && {Now().cells[i].id, Now().cells[j].id} <= live
    {
      DistinctPairs(Now().cells, i, j);
      CellIsLive(Now().cells, i);
      CellIsLive(Now().cells, j);
    }

    /** Construct (947-979): a new object in each slot from start to end. */
    method Construct(start: nat, end: nat)
      requires start <= end <= buffer.Length
      modifies buffer, this`live, this`issued
      ensures issued == old(issued) + (end - start)
      ensures live == old(live) + Fresh(old(issued), end - start)
      ensures forall k :: start <= k < end ==> buffer[k] == Cell(old(issued) + k - start, blank)
      ensures forall k :: 0 <= k < start || end <= k < buffer.Length ==> buffer[k] == old(buffer[k])
    {
      var d := start;
      while d < end
        invariant start <= d <= end && issued == old(issued) + (d - start)
        invariant forall k :: start <= k < d ==> buffer[k] == Cell(old(issued) + k - start, blank)
        invariant forall k :: 0 <= k < start || d <= k < buffer.Length ==> buffer[k] == old(buffer[k])
        invariant live == old(live) + Fresh(old(issued), d - start)
      {
        buffer[d] := Cell(issued, blank);
        live := live + {issued};
        issued := issued + 1;
        d := d + 1;
      }
    }

    /** CreateBuffer with its Construct (918-935). */
    constructor (objType: nat, maxSize: UInt32, blank: T, count: nat)
      requires count <= maxSize <= WORD32 - BUFFER_HEADER
      ensures Valid() && fresh(buffer)
      ensures this.objType == objType && this.maxSize == maxSize && this.blank == blank
      ensures Now() == State(NewCells(0, Repeat(blank, count)), Fresh(0, count), count)
    {
      this.objType, this.maxSize, this.blank := objType, maxSize, blank;
      buffer := new Cell<T>[count](_ => Cell(0, blank));
      numElements, live, issued := 0, {}, 0;
      new;
      Construct(0, count);
      numElements := count;
      assert Now() == State(NewCells(0, Repeat(blank, count)), Fresh(0, count), count);
      FirstCells(Repeat(blank, count));
    }

    /** Destruct (982-997): releases the object of each slot from start to end. */
    method Destruct(start: nat, end: nat)
      requires start <= end <= buffer.Length
      modifies this`live
      ensures live == old(live) - Ids(buffer[start..end])
    {
      var d := start;
      while d < end
        invariant start <= d <= end
        invariant live == old(live) - Ids(buffer[start..d])
      {
        assert buffer[start..d + 1][..d - start] == buffer[start..d];
        live := live - {buffer[d].id};
        d := d + 1;
      }
    }

    /** The memmove that makes room (747): the tail goes up by delta slots. */
    method ShiftUp(at: nat, delta: nat)
      requires Shaped() && at <= numElements && numElements + delta <= buffer.Length
      modifies buffer
      ensures forall k :: 0 <= k < at ==> buffer[k] == old(Now().cells)[k]
      ensures forall k :: at + delta <= k < numElements + delta ==> buffer[k] == old(Now().cells)[k - delta]
    {
      forall k | at <= k < numElements { buffer[k + delta] := buffer[k]; }
    }

    /** The memmove that closes a gap, and the new count (677-678, 740-741). */
    method ShiftDown(at: nat, n: nat)
      requires Shaped() && at + n <= numElements
      modifies this`numElements, buffer
      ensures Shaped() && Now() == old(Now()).(cells := Removed(old(Now().cells), at, n))
    {
      forall k | at <= k < numElements - n { buffer[k] := buffer[k + n]; }
      numElements := numElements - n;
      assert Now().cells == Removed(old(Now().cells), at, n);
    }

    /** A larger buffer with the two parts copied around a gap (705-725). */
    method CopyAround(delta: nat, at: nat) returns (grown: array<Cell<T>>)
      requires Shaped() && at <= numElements
      ensures fresh(grown) && grown.Length == numElements + delta
      ensures forall k :: 0 <= k < at ==> grown[k] == buffer[k]
      ensures forall k :: at + delta <= k < grown.Length ==> grown[k] == buffer[k - delta]
    {
      grown := new Cell<T>[numElements + delta](_ => Cell(0, blank));
      forall k | 0 <= k < at { grown[k] := buffer[k]; }
      forall k | at <= k < numElements { grown[k + delta] := buffer[k]; }
    }

    /** The reallocating branch (703-734). */
    method GrowByCopy(delta: nat, at: nat)
      requires Shaped() && at <= numElements && numElements + delta <= maxSize
      modifies this
      ensures Shaped() && fresh(buffer) && buffer.Length == numElements
      ensures Now() == WithInserted(old(Now()), at, Repeat(blank, delta))
    {
      buffer := CopyAround(delta, at);
      Construct(at, at + delta);
      numElements := numElements + delta;
      InsertedBySlots(old(Now().cells), Now().cells, at, NewCells(old(issued), Repeat(blank, delta)));
    }

    /** Moves the tail up and fills the gap (747-748). */
    method OpenGap(delta: nat, at: nat)
      requires Shaped() && at <= numElements && numElements + delta <= buffer.Length
      modifies buffer, this`live, this`issued
      ensures issued == old(issued) + delta && live == old(live) + Fresh(old(issued), delta)
      ensures forall k :: 0 <= k < at ==> buffer[k] == old(Now().cells)[k]
      ensures forall k :: at <= k < at + delta ==> buffer[k] == Cell(old(issued) + k - at, blank)
      ensures forall k :: at + delta <= k < numElements + delta ==> buffer[k] == old(Now().cells)[k - delta]
    {
      ShiftUp(at, delta);
      Construct(at, at + delta);
    }

    /** The branch that makes room in place (743-750). */
    method GrowInPlace(delta: nat, at: nat)
      requires Shaped() && at <= numElements && numElements + delta <= buffer.Length
      modifies this, buffer
      ensures Shaped() && buffer == old(buffer)
      ensures Now() == WithInserted(old(Now()), at, Repeat(blank, delta))
    {
      ghost var s, mid := Now().cells, NewCells(issued, Repeat(blank, delta));
      OpenGap(delta, at);
      numElements := numElements + delta;
      InsertedBySlots(s, Now().cells, at, mid);
    }

    /** Releases n elements and closes the gap (671-678, 735-742). */
    method CloseGap(at: nat, n: nat)
      requires Shaped() && at + n <= numElements
      modifies this`numElements, this`live, buffer
      ensures Shaped()
      ensures Now() == WithRemoved(old(Now()), at, n)
    {
      assert buffer[at..at + n] == Now().cells[at..at + n];
      Destruct(at, at + n);
      ShiftDown(at, n);
    }

    /** The clamps of Resize (684-699): no more is removed than there is, and the place of the
        change is inside the array. */
    method Clamp(delta: int, at: UInt32) returns (change: int, gap: nat)
      requires Shaped() && -HALF32 < delta < HALF32
      requires delta < 0 ==> numElements < HALF32
      ensures delta < 0 ==>
        && -change == (if -delta < numElements then -delta else numElements)
        && gap == if at < numElements + change then at else numElements + change
      ensures delta >= 0 ==> change == delta
      ensures delta > 0 ==> gap == if at < numElements then at else numElements
    {
      change, gap := delta, at;
      if delta < 0 {
        ClampBelowHalf(numElements, delta);
        change := ClampedRemoval(numElements, delta);
        if gap > numElements + change { gap := numElements + change; }
      } else if delta > 0 {
        if gap > numElements { gap := numElements; }
      }
    }

    /** The three branches (703-750), for a clamped change. */
    method Reshape(change: int, gap: nat)
      requires Shaped() && change != 0 && numElements + change <= maxSize
      requires gap <= numElements && (change < 0 ==> gap - change <= numElements)
      modifies this, buffer
      ensures Shaped() && (buffer == old(buffer) || fresh(buffer))
      ensures change > 0 ==> Now() == WithInserted(old(Now()), gap, Repeat(blank, change))
      ensures change < 0 ==> Now() == WithRemoved(old(Now()), gap, -change)
    {
      var needed := SumOf(numElements, change);
      if buffer.Length < needed {
        GrowByCopy(change, gap);
      } else if change < 0 {
        CloseGap(gap, -change);
      } else {
        GrowInPlace(change, gap);
      }
    }

    /** Resize(delta, at) (682-751).  Removal is right below 2^31 elements only
        (ClampIsRightBelowHalf), growth when the sum of the sizes does not wrap. */
    method ResizeAt(delta: int, at: UInt32) returns (r: Outcome)
      requires Shaped() && -HALF32 < delta < HALF32
      requires delta < 0 ==> numElements < HALF32
      requires numElements + delta < WORD32
      modifies this, buffer
      ensures Shaped() && (buffer == old(buffer) || fresh(buffer))
      ensures r == if delta > 0 && old(numElements) + delta > maxSize then TooLarge else Done
      ensures r == TooLarge || delta == 0 ==> buffer == old(buffer) && Now() == old(Now())
      ensures r == Done && delta > 0 ==>
        Now() == WithInserted(old(Now()), if at < old(numElements) then at else old(numElements), Repeat(blank, delta))
      ensures delta < 0 ==>
        var n := if -delta < old(numElements) then -delta else old(numElements);
        Now() == WithRemoved(old(Now()), if at < old(numElements) - n then at else old(numElements) - n, n)
    {
      if delta > 0 {
        var needed := SumOf(numElements, delta);
        if needed > maxSize { return TooLarge; }
      }
      r := Done;
      var change, gap := Clamp(delta, at);
      if change != 0 {
        Reshape(change, gap);
      } else if delta < 0 {
        NothingChanged(Now(), gap, blank);
      }
    }

    /** The public Resize (645-651): the array is cut or filled up with new elements at its end,
        whenever the change asked for leads to the size (see ResizeReachesExactly). */
    method Resize(size: UInt32) returns (r: Outcome)
      requires Valid() && (size <= maxSize ==> ResizeReaches(numElements, size))
      modifies this, buffer
      ensures Valid() && (buffer == old(buffer) || fresh(buffer))
      ensures r == if size > maxSize then TooLarge else Done
      ensures Now() == if r == TooLarge then old(Now())
                       else if size < old(numElements) then WithRemoved(old(Now()), size, old(numElements) - size)
                       else WithInserted(old(Now()), old(numElements), Repeat(blank, size - old(numElements)))
    {
      if size > maxSize { return TooLarge; }
      var delta := ChangeTo(numElements, size);
      if delta < 0 {
        RemovalAccounted(Now(), size, -delta);
      } else {
        InsertionAccounted(Now(), numElements, Repeat(blank, delta));
        NothingChanged(Now(), numElements, blank);
      }
      r := ResizeAt(delta, WORD32 - 1);
    }

    /** SetValue (556-589) for one element. */
    method SetValue(index: nat, value: T)
      requires Shaped()
      modifies buffer
      ensures Shaped() && Now() == WithOverlaid(old(Now()), index, [value])
    {
      ghost var s := Now();
      if index < numElements {
        buffer[index] := Cell(buffer[index].id, value);
        assert Now().cells == s.cells[index := Cell(s.cells[index].id, value)];
      }
      assert Now().cells == Overlaid(s.cells, index, [value]);
    }

    /** InsertAt for one element (791-807).  Where the array cannot grow any more, the element
        already at index is overwritten. */
    method InsertAt(index: UInt32, value: T) returns (r: Outcome)
      requires Valid()
      modifies this, buffer
      ensures Valid() && (buffer == old(buffer) || fresh(buffer))
      ensures r == if index > old(numElements) then OutOfBounds
                   else if old(numElements) == maxSize then TooLarge else Done
      ensures r == OutOfBounds ==> Now() == old(Now())
      ensures r == TooLarge ==> Now() == WithOverlaid(old(Now()), index, [value])
      ensures r == Done ==> Now() == WithInserted(old(Now()), index, [value])
    {
      if index > numElements { return OutOfBounds; }
      FilledGap(Now(), index, blank, [value]);
      InsertionAccounted(Now(), index, [value]);
      OverlayAccounted(Now(), index, [value]);
      r := ResizeAt(1, index);
      SetValue(index, value);
    }

    /** The loop of InsertAt over another array (833-839). */
    method CopyFrom(index: nat, arr: CScriptArray<T>)
      requires Shaped() && arr.Shaped() && arr != this && arr.buffer != buffer
      modifies buffer
      ensures Shaped() && Now() == WithOverlaid(old(Now()), index, Values(arr.Now().cells))
      ensures arr.Now() == old(arr.Now())
    {
      ghost var s, values := Now(), Values(arr.Now().cells);
      OverlayNothing(s, index);
      var n := 0;
      while n < arr.numElements
        invariant 0 <= n <= arr.numElements && Shaped()
        invariant Now() == WithOverlaid(s, index, values[..n])
      {
        OverlayStep(s, index, values, n);
        SetValue(index + n, arr.buffer[n].value);
        n := n + 1;
      }
      assert values[..n] == values;
    }

    /** One round of the loops over this very array (846-860): `values` is what the array held
        before room was made, `done` of them are written. */
    method CopyOwn(source: nat, index: nat, done: nat, ghost s: State<T>, ghost values: seq<T>)
      requires done < |values| && Shaped() && Now() == WithOverlaid(s, index, values[..done])
      requires source < |s.cells| && s.cells[source].value == values[done]
      requires source < index || index + done <= source
      modifies buffer
      ensures Shaped() && Now() == WithOverlaid(s, index, values[..done + 1])
    {
      OverlayStep(s, index, values, done);
      SetValue(index + done, buffer[source].value);
    }

    /** The elements before index, written from index on (846-852). */
    method CopyFront(index: nat, ghost values: seq<T>)
      requires Shaped() && index <= |values| && index <= numElements
      requires forall k :: 0 <= k < index ==> Now().cells[k].value == values[k]
      modifies buffer
      ensures Shaped() && Now() == WithOverlaid(old(Now()), index, values[..index])
    {
      ghost var s := Now();
      OverlayNothing(s, index);
      var n := 0;
      while n < index
        invariant 0 <= n <= index && Shaped()
        invariant Now() == WithOverlaid(s, index, values[..n])
      {
        CopyOwn(n, index, n, s, values);
        n := n + 1;
      }
    }

    /** The elements behind the gap of `elements` slots, into the rest of it (854-860). */
    method CopyBack(index: nat, elements: nat, ghost s: State<T>, ghost values: seq<T>)
      requires elements == |values| && OwnAround(s.cells, index, values)
      requires Shaped() && Now() == WithOverlaid(s, index, values[..index])
      modifies buffer
      ensures Shaped() && Now() == WithOverlaid(s, index, values)
    {
      var n, m := index + elements, 0;
      while n < numElements
        invariant Shaped() && 0 <= m && n == index + elements + m <= numElements == |s.cells|
        invariant Now() == WithOverlaid(s, index, values[..index + m])
      {
        CopyOwn(n, index, index + m, s, values);
        n, m := n + 1, m + 1;
      }
      assert values[..index + m] == values;
    }

    /** The Resize of an insertion (803, 830), for any number of elements, none included. */
    method MakeRoom(elements: nat, index: nat) returns (r: Outcome)
      requires Shaped() && index <= numElements
      requires elements < HALF32 && numElements + elements < WORD32
      modifies this, buffer
      ensures Shaped() && (buffer == old(buffer) || fresh(buffer))
      ensures r == if elements > 0 && old(numElements) + elements > maxSize then TooLarge else Done
      ensures r == TooLarge ==> Now() == old(Now())
      ensures r == Done ==> Now() == WithInserted(old(Now()), index, Repeat(blank, elements))
    {
      NothingChanged(Now(), index, blank);
      r := ResizeAt(elements, index);
    }

    /** InsertAt for another array (829-840). */
    method InsertOther(index: nat, arr: CScriptArray<T>) returns (r: Outcome)
      requires Shaped() && arr.Shaped() && arr != this && arr.buffer != buffer && index <= numElements
      requires arr.numElements < HALF32 && numElements + arr.numElements < WORD32
      modifies this, buffer
      ensures Shaped() && (buffer == old(buffer) || fresh(buffer))
      ensures r == if arr.numElements > 0 && old(numElements) + arr.numElements > maxSize then TooLarge else Done
      ensures r == TooLarge ==> Now() == WithOverlaid(old(Now()), index, Values(old(arr.Now()).cells))
      ensures r == Done ==> Now() == WithInserted(old(Now()), index, Values(old(arr.Now()).cells))
    {
      FilledGap(Now(), index, blank, Values(arr.Now().cells));
      r := MakeRoom(arr.numElements, index);
      CopyFrom(index, arr);
    }

    /** InsertAt for this very array (829-830, 841-861): first the elements before index, then
        those behind the gap.  Without room the second loop has nothing to do. */
    method InsertOwn(index: nat) returns (r: Outcome)
      requires Shaped() && index <= numElements < HALF32
      modifies this, buffer
      ensures Shaped() && (buffer == old(buffer) || fresh(buffer))
      ensures r == if old(numElements) > 0 && 2 * old(numElements) > maxSize then TooLarge else Done
      ensures r == TooLarge ==> Now() == WithOverlaid(old(Now()), index, Values(old(Now()).cells)[..index])
      ensures r == Done ==> Now() == WithInserted(old(Now()), index, Values(old(Now()).cells))
    {
      var elements := numElements;
      ghost var values := Values(Now().cells);
      RoomForOwn(Now(), index, blank);
      FilledGap(Now(), index, blank, values);
      r := MakeRoom(elements, index);
      ghost var s := Now();
      CopyFront(index, values);
      if index + elements < numElements {
        CopyBack(index, elements, s, values);
      } else if r == Done {
        assert values[..index] == values;
      }
    }

    /** InsertAt for an array (809-862), which may be this one.  Where the array cannot grow
        enough, the elements from index on are overwritten. */
    method InsertArrayAt(index: UInt32, arr: CScriptArray<T>) returns (r: Outcome)
      requires Valid() && arr.Shaped() && (arr != this ==> arr.buffer != buffer)
      requires index <= numElements && objType == arr.objType ==>
        arr.numElements < HALF32 && numElements + arr.numElements < WORD32
      modifies this, buffer
      ensures Valid() && (buffer == old(buffer) || fresh(buffer))
      ensures r == if index > old(numElements) then OutOfBounds
                   else if objType != arr.objType then Mismatch
                   else if old(arr.numElements) > 0 && old(numElements) + old(arr.numElements) > maxSize then TooLarge
                   else Done
      ensures r == OutOfBounds || r == Mismatch ==> Now() == old(Now())
      ensures r == TooLarge ==>
        var values := Values(old(arr.Now()).cells);
        Now() == WithOverlaid(old(Now()), index, if arr == this then values[..index] else values)
      ensures r == Done ==> Now() == WithInserted(old(Now()), index, Values(old(arr.Now()).cells))
    {
      if index > numElements { return OutOfBounds; }
      if objType != arr.objType { return Mismatch; }
      ghost var values := Values(arr.Now().cells);
      InsertionAccounted(Now(), index, values);
      OverlayAccounted(Now(), index, if arr == this then values[..index] else values);
      if arr != this {
        r := InsertOther(index, arr);
      } else {
        r := InsertOwn(index);
      }
    }

    /** RemoveAt (869-882). */
    method RemoveAt(index: UInt32) returns (r: Outcome)
      requires Valid() && (index < numElements ==> numElements < HALF32)
      modifies this, buffer
      ensures Valid() && (buffer == old(buffer) || fresh(buffer))
      ensures r == if index >= old(numElements) then OutOfBounds else Done
      ensures Now() == if r == OutOfBounds then old(Now()) else WithRemoved(old(Now()), index, 1)
    {
      if index >= numElements { return OutOfBounds; }
      RemovalAccounted(Now(), index, 1);
      r := ResizeAt(-1, index);
    }

    /** RemoveRange (653-679), where start + count does not wrap (see CapIsRightWithoutWrap) or
        nothing is to be removed. */
    method RemoveRange(start: UInt32, count: UInt32) returns (r: Outcome)
      requires Valid() && (0 < count && start <= numElements ==> start + count < WORD32)
      modifies this, buffer
      ensures Valid() && buffer == old(buffer)
      ensures r == if count > 0 && start > old(numElements) then OutOfBounds else Done
      ensures r == OutOfBounds || count == 0 ==> Now() == old(Now())
      ensures r == Done && count > 0 ==>
        var room := old(numElements) - start;
        Now() == WithRemoved(old(Now()), start, if count < room then count else room)
    {
      if count == 0 { return Done; }
      if start > numElements { return OutOfBounds; }
      CapIsRightWithoutWrap(numElements, start, count);
      var n := CappedCount(numElements, start, count);
      RemovalAccounted(Now(), start, n);
      CloseGap(start, n);
      r := Done;
    }
  }
}
