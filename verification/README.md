# Proofs about the MUD server's core

This project models the hard core of the server in Dafny and proves what it promises: the paragraph
reflow, the task schedulers with the heaps and pools below them, the telnet and tag parsers, the
word-at-a-time scans, the editor's line index, the double-word arithmetic and primality test of the
bundled GMP, and the script array. `dafny verify dfyconfig.toml` checks everything.

| module | models |
|---|---|
| `Reflow` | the line-breaking problem of `src/textutil.c` and what its dynamic program reaches |
| `ReflowLoop` | the double loop that fills its tables |
| `ReflowOutput` | the output rebuilt from its breaks through a stack, down to the characters |
| `ReflowText` | what widths and costs mean for the text, and the reflow of a whole paragraph |
| `MinHeap` | the growing and shrinking binary heap of `src/hrt_prioq.c`; `src/prioq.c` is the same code over whole seconds |
| `PoolAlloc` | the in-place free-list allocator of `src/poolalloc.c` |
| `ThreadPool` | workers and producers of `src/threadpool.c` as a step system, on top of the pool's free list |
| `Dispatch` | the producer and the two dispatch loops that move due tasks to the thread pool, on top of heap and pool |
| `Scheduler` | the actor scheduler and its producers as a step system |
| `TickThread` | the timed queue over whole runs of its producers and the tick thread, as a step system |
| `Telnet` | the byte-at-a-time telnet state machine |
| `TagLexer` | the tag tokenizer and the substitution of its tokens |
| `BitUtils`, `Words`, `Scan` | leading and trailing zeros, the test of one machine word, and the scans and counts built on them |
| `LineEditor` | the editor's incremental line index |
| `DoubleWord`, `Primality` | portable double-word multiplication and division, trial division over the wheel 2, 4 |
| `ScriptArray` | the script array's shifting buffer and its element objects |
| `Arith` | products and the conversion to `int`, shared by the others |

Objects that the source updates in place are classes here, with arrays for its buffers. Locked
regions of the concurrent parts are atomic steps; the theorems about them hold for every
interleaving of any number of threads. C integers are unbounded integers with every wrap-around that
can occur written out; pointers are indices or object references.

Where the code meets its promise only in part, the exact condition is proved:

- `Reflow.OverflowsExactlyAboveMaxWidth`: in every state that meets the invariants of the double loop, the cost it forms is
  an `int`, if and only if the line width is at most 2901. The failing states are the loop's own: its start, and for
  `Reflow.WideLineOverflows` what the first outer round, which stores nothing, leaves. Wider lines are covered wherever
  their costs fit.
- `ReflowText.SlotBehindLastWord`: the slot behind the last word, which the loop reads, lies inside the word array if and only if
  the number of words is not 64 times a power of eight; 64 words are the first to fill it.
- `ReflowText.HyphenLinesNeverWait`: the rule that no two lines in a row should end on a hyphen looks at the word behind a line,
  while the hyphen is written behind the last word on it. Among the words the tokenizer makes, a line that ends on a hyphen
  is therefore never held back; `ReflowText.TwoHyphensInARow` gives two such lines in a row. What the wait does keep apart are
  lines before a split word, see `ReflowLoop.HyphensAreApart`.
- `MinHeap.ShrinkKeepsRoom`: for a capacity below 4 the limit `(capacity >> 1) - 2` wraps and the array is reallocated on
  every extraction, but it never gets too small.
- `MinHeap.PlaceOfLastNode`: the sift-up after an insertion starts at the new node if and only if there are at most 2^31.
- `TagLexer.CapFlagIsRightBelow2G` and `TagLexer.SelfSubstitution`: the capital flag is right for all texts if and only if the
  token's offset is below 2^31, and substituting the tokens by themselves gives back the text if and only if no token is
  raised, which cannot happen in texts of up to 2^31 characters.
- `Scan.TailIsRightWithoutWrap`: the words and the tail the 32-bit build searches make up the string if and only if the
  unsigned shift of the word count does not wrap, as for all strings below 2^32 bytes.
- `Scan.LastIndexFitsUpTo2G`: the index of the last byte is an `int` if and only if there are at most 2^31 bytes.
- `Scan.RoundMovesOnBelowF6`: the place of the character count moves on behind the byte a round stopped at if and only if
  that byte is below 0xF6; `Scan.StuckInput` gives the string 0xFF, on which it does not.
- `Scan.RestLengthIsRight`: the length passed to the next scan is what remains, and does not wrap, if and only if something
  was read and the character less one byte fits into what was left; `Scan.CutInput` gives the string 0xF0, NUL of two bytes,
  on which the place moves on but behind the memory, and the length wraps.
- `ScriptArray.CapIsRightWithoutWrap`: `RemoveRange` removes what is there from `start` on if and only if `start + count`
  does not wrap.
- `ScriptArray.ResizeReachesExactly`: the public `Resize` asks for a change that leads to the wanted size if and only if both
  sizes are below 2^31, or neither is and the array does not shrink.
- `ScriptArray.ClampIsRightBelowHalf` and `ScriptArray.GrowthIsExactWithoutWrap`: removal is right if and only if there are
  fewer than 2^31 elements, and the size an insertion asks for is right if and only if neither its cast to `int` nor the sum
  wraps. Elements of two or more bytes never get there.
- `ScriptArray.CScriptArray.InsertAt` and `InsertArrayAt` overwrite elements from the index on when the array cannot grow.

The telnet code reads `IAC IAC` as a command verb; section "TELNET COMMAND STRUCTURE" of RFC 854 makes it a data byte 255.

## Model

| member | source | states |
|---|---|---|
| `ReflowLoop.BreakLosesNothing` | src/textutil.c:411-414 | leaving the inner loop at the first line that is too wide skips no line that would fit |
| `ReflowLoop.SkipKeepsRelaxed` | src/textutil.c:416-419 | a line that is not cheaper needs no update: all lines seen so far stay relaxed |
| `ReflowLoop.StoreKeepsLinked` | src/textutil.c:433-434 | an update keeps every reached word's minimum equal to its parent's plus the cost of a line that fits |
| `ReflowLoop.StoreKeepsRelaxed` | src/textutil.c:419-434 | an update keeps the minima below every line considered so far |
| `ReflowLoop.LineWidthOf` | src/textutil.c:401-409 | the width tested is the width of the line with its spaces, and the last line always passes |
| `ReflowLoop.CostOf` | src/textutil.c:416-417 | the `int` cost is the true base plus squared slack, without overflow, whenever that fits on top of the sentinel |
| `ReflowLoop.RelaxFrom` | src/textutil.c:397-438 | one outer round keeps the parent links exact, relaxes every line from word i that no hyphen point follows, and stores the others exactly when the wait has passed two widths |
| `ReflowLoop.FillBreaks` | src/textutil.c:385-439 | after the double loop every reached word has an exact parent link and the cost of a line that was stored; no line that no hyphen point follows can improve a minimum |
| `Reflow.NoLayoutIsCheaper` | src/textutil.c:385-439 | no break sequence that avoids hyphen points, so without them none at all, costs less than the minimum of its last word |
| `Reflow.PathPaysMinimum` | src/textutil.c:433-434 | following the parents from any reached word gives a legal layout that costs exactly its minimum |
| `Reflow.MinimaAreOptimal` | src/textutil.c:385-439 | each minimum is the least total of squared slacks over all layouts of the words before it, capped at the sentinel; a value below the sentinel is attained |
| `Reflow.HyphensNeverCostMore` | src/textutil.c:385-439 | with hyphen points the layout found costs at most as much as any layout that avoids them, where that is below the sentinel |
| `ReflowLoop.HyphensAreApart` | src/textutil.c:419-431 | over the whole double loop, between two stored lines before hyphen points, and before the first, at least three others are stored |
| `ReflowText.HyphenLinesNeverWait` | src/textutil.c:399-421 | among the tokenizer's words a line whose output ends on a hyphen is stored at once |
| `ReflowText.TwoHyphensInARow` | src/textutil.c:419-423 | two split words, in lines of twelve columns: two lines in a row end on a hyphen and both are stored |
| `Reflow.NarrowLinesFit` | src/textutil.c:390-417 | up to width 2901 every line's cost fits on top of the sentinel |
| `Reflow.WideLineOverflows` | src/textutil.c:385-419 | from width 2902 on there is a paragraph whose first line is already too wide, so that the first outer round stores nothing; the line of the second word alone is tried next, on top of the sentinel, and the sum leaves `int` |
| `Reflow.SquareOverflows` | src/textutil.c:416-417 | from width 46341 on the square alone leaves `int` for a first word without width, in the very state the loop starts in |
| `Reflow.OverflowsExactlyAboveMaxWidth` | src/textutil.c:385-439 | no state that meets the loop's invariants overflows when a line is tried, if and only if the width is at most 2901 |
| `ReflowText.WordCapacityIs` | src/textutil.c:60-82 | pushing words one by one leaves a capacity of 64 times a power of eight, the least that holds them |
| `ReflowText.SlotBehindLastWord` | src/textutil.c:71-76 | the slot behind the last word is inside the array if and only if the count is not 64 times a power of eight; with 64 words it is outside |
| `ReflowOutput.IntStack.Pop` | src/textutil.c:108-119 | takes the top and clears its slot; on an empty stack returns the slot at the bottom |
| `ReflowOutput.IntStack.Peek` | src/textutil.c:121-124 | the top of a non-empty stack |
| `ReflowOutput.IntStack.Push` | src/textutil.c:126-136 | adds one value on top, with growth when full |
| `Reflow.BreakPath` | src/textutil.c:277-286 | parents that point backwards lead from any word to 0 |
| `Reflow.PathSteps` | src/textutil.c:277-286 | the walk is strictly ascending, stays in range, and each step is a parent link |
| `ReflowOutput.PushBreaks` | src/textutil.c:276-286 | the walk ends and leaves exactly the line starts on the stack, last line lowest |
| `ReflowOutput.EmitLine` | src/textutil.c:297-323 | one line is the pieces of its words in order, then the hyphen where due, and a newline; LineIsJoined and LineEndChars tell their characters |
| `ReflowOutput.LineIsJoined` | src/textutil.c:297-317 | the characters of a line are its words with the spaces their neighbours ask for: one between plain words, none behind a hyphen point, those of its own bits around a control sequence, none on its left at the start of a line |
| `ReflowOutput.LineEndChars` | src/textutil.c:318-322 | a line ends with a hyphen exactly behind a hyphen point, and a newline |
| `ReflowText.PlainLineText` | src/textutil.c:311-314 | plain words are joined by single spaces, with one more behind the last unless a control sequence follows |
| `ReflowText.LineWidthIsTextWidth` | src/textutil.c:401-404 | for one-column characters the width tested is the length of the joined text, and the line emitted is one longer |
| `ReflowText.FitsMeansTextFits` | src/textutil.c:401-414 | a line is allowed if and only if its text is at most as wide as the line; the last line is judged without its last word |
| `ReflowText.CostIsThatOfTheText` | src/textutil.c:406-417 | the cost minimized is the sum of the squared free columns of the emitted lines' texts, but for the last line |
| `ReflowOutput.PopLines` | src/textutil.c:293-327 | the output loop emits the lines in order and stops because the emptied stack returns the slot it cleared |
| `ReflowOutput.LinesKeepWords` | src/textutil.c:293-327 | the lines up to any break of a path that tiles the words contain each word before it once and in order |
| `ReflowOutput.EmittedKeepsWords` | src/textutil.c:293-327 | each word is emitted exactly once and in order |
| `ReflowOutput.EmittedIsWritten` | src/textutil.c:293-327 | the characters of the whole output: line by line the joined words, space, hyphen and newline, then the final empty line |
| `ReflowOutput.NoCharacterIsLost` | src/textutil.c:293-327 | without hyphen points the output, less spaces and newlines, is the text of the words, less theirs |
| `ReflowOutput.PerformReflow` | src/textutil.c:269-332 | for any parents that point backwards the output is the lines of their path, which tile all words |
| `ReflowText.MeasureWords` | src/textutil.c:372-383 | the offsets are the running widths, escape words counting nothing |
| `ReflowText.ReflowParagraph` | src/textutil.c:369-446 | end to end, for every width at which the costs fit: every word comes out once and in order; the emitted lines are a legal layout of the reported cost whenever that is below the sentinel; the characters are those of the path's lines; without hyphen points the cost is optimal, with them at most that of any layout that avoids them |
| `MinHeap.CmpTs` | src/hrt_prioq.c:35-46 | the sign tells the lexicographic order of two timestamps, 0 exactly for equal ones, normalized or not |
| `MinHeap.ComparesTimes` | src/hrt_prioq.c:35-46 | for timestamps of a clock the sign is that of the difference in nanoseconds |
| `MinHeap.SecondsDecide` | src/hrt_prioq.c:35-46 | for any nanoseconds, different seconds decide; equal ones leave it to the nanoseconds |
| `MinHeap.SecondsOnly` | src/prioq.c:61-89 | with zero nanoseconds the order is that of the plain integer keys of the other heap |
| `MinHeap.SmallestInPlace` | src/hrt_prioq.c:102-123 | when neither child of a sinking node is smaller, heap order is restored |
| `MinHeap.SinkStep` | src/hrt_prioq.c:116-121 | exchanging a node with its smaller child moves the one violation down |
| `MinHeap.RiseStep` | src/hrt_prioq.c:160-171 | exchanging a node with its larger parent moves the one violation up |
| `MinHeap.RootIsLeast` | src/hrt_prioq.c:181-212 | heap order on parent edges puts a least key at the root |
| `MinHeap.RootIsLeastOfContents` | src/hrt_prioq.c:181-212 | the root of a heap is a least entry of the multiset it holds |
| `MinHeap.PlaceOfLastNode` | src/hrt_prioq.c:266 | the conversion of the last place to `int` is exact if and only if there are at most 2^31 nodes; with one more the place is negative |
| `MinHeap.ShrinkKeepsRoom` | src/hrt_prioq.c:196-202 | a shrink leaves room for all entries, also where the `size_t` limit wraps for a capacity below 4, which then always shrinks |
| `MinHeap.ShrinkKeepsTight` | src/hrt_prioq.c:196-202 | from capacity 4 on a shrink happens exactly at 2 * len + 6, and a run of extractions keeps the capacity within 2 * len + 5 |
| `MinHeap.Heap.constructor` | src/hrt_prioq.c:140-148 | an empty heap with room for twice the given length, where that is an `int` |
| `MinHeap.Heap.PickSmallest` | src/hrt_prioq.c:102-114 | the node picked is the given one or one of its children, and neither that one nor any child has a smaller key |
| `MinHeap.Heap.Heapify` | src/hrt_prioq.c:95-124 | sift-down restores heap order from its start on and keeps the contents |
| `MinHeap.Heap.BuildMinHeap` | src/hrt_prioq.c:126-138 | bottom-up build turns any array whose last inner place is an `int` into a heap with the same contents |
| `MinHeap.Heap.DecreaseKey` | src/hrt_prioq.c:150-173 | sift-up restores heap order after one key got smaller and keeps the contents |
| `MinHeap.Heap.EnsureRoom` | src/hrt_prioq.c:253-262 | a full array grows to twice its capacity plus two with the same nodes |
| `MinHeap.Heap.AppendNode` | src/hrt_prioq.c:264-265 | the new node is last and the only one that may be smaller than its parent |
| `MinHeap.Heap.MinInsert` | src/hrt_prioq.c:250-268 | adds exactly one entry, keeps heap order and capacity, doubles plus two when full |
| `MinHeap.Heap.DropRoot` | src/hrt_prioq.c:185-195 | the last node takes the root's place and the length drops by one |
| `MinHeap.Heap.ExtractMin` | src/hrt_prioq.c:181-212 | null for an empty heap; otherwise the data of a least entry, which alone leaves the multiset |
| `MinHeap.Heap.MinKey` | src/hrt_prioq.c:67-71 | the key at the root belongs to a least entry |
| `PoolAlloc.InitConsistent` | src/poolalloc.c:109-140 | a new block is one acyclic free list of all its slots |
| `PoolAlloc.AddBlockKeeps` | src/poolalloc.c:142-160 | a pool whose list ran out gets a new list of twice as many slots as it has, three times as many in all |
| `PoolAlloc.AllocKeeps` | src/poolalloc.c:162-177 | the slot handed out was free and is in range; list and outstanding slots still partition all slots and the head is never null |
| `PoolAlloc.FreeKeeps` | src/poolalloc.c:179-188 | a returned slot is first on the list and no longer outstanding; nothing else moves |
| `PoolAlloc.SlotCountIs` | src/poolalloc.c:142-160 | growth by twice the count makes init * 3^(blocks - 1) slots |
| `PoolAlloc.WriteKeeps` | src/poolalloc.c:181-182 | users may overwrite an outstanding slot, link word included, without harming the list |
| `PoolAlloc.RunsStayConsistent` | src/poolalloc.c:127-188 | over every run of allocations, writes and frees: acyclic duplicate-free list, partition of all slots, head never null, size init * 3^(blocks - 1), and no slot is handed out while outstanding |
| `PoolAlloc.AllocPool.constructor` | src/poolalloc.c:127-140 | a new pool is the initial list with nothing outstanding |
| `PoolAlloc.AllocPool.LinkBlock` | src/poolalloc.c:109-125 | the link loop chains the slots of a block in address order and ends the list with null |
| `PoolAlloc.AllocPool.Grow` | src/poolalloc.c:142-160 | the in-place growth is the step proved about above |
| `PoolAlloc.AllocPool.Take` | src/poolalloc.c:162-177 | returns a slot that was not outstanding, and keeps the pool consistent |
| `PoolAlloc.AllocPool.Return` | src/poolalloc.c:179-188 | takes back an outstanding slot, and keeps the pool consistent |
| `PoolAlloc.MemoryPool.FindAllocPool` | src/poolalloc.c:17-32 | finds the pool of a block size if there is one |
| `PoolAlloc.MemoryPool.AddBlockSizePool` | src/poolalloc.c:66-90 | adds a pool for a new block size; block sizes stay distinct |
| `PoolAlloc.MemoryPool.Take` | src/poolalloc.c:34-53 | the slot comes from the only pool of its size, created when missing; all other pools are untouched |
| `PoolAlloc.MemoryPool.Return` | src/poolalloc.c:55-64 | a slot freed with its own size goes back to the pool it came from; all other pools are untouched |
| `ThreadPool.StepKeepsOneHolder` | src/threadpool.c:18-69 | no step of a worker or a producer leaves a task node with two holders or none |
| `ThreadPool.StepKeepsAccounted` | src/threadpool.c:38-66 | no step loses a task or doubles it |
| `ThreadPool.StepKeepsNoLostWakeup` | src/threadpool.c:20-31 | no step leaves fewer workers awake and signals on the way than there are tasks to take |
| `ThreadPool.RunsKeepInvariant` | src/threadpool.c:14-69 | all of it, together with the consistency of the node pool, holds in every state of every interleaving |
| `ThreadPool.EveryNodeHasOneHolder` | src/threadpool.c:159-186 | each node is in exactly one of free list, a producer's hands, the queue and a worker's hands, and the free ones are those on the list from the head node |
| `ThreadPool.EachTaskRunsAtMostOnce` | src/threadpool.c:38-66 | no task is dealt with twice; a task added is dealt with or still pending at a node |
| `ThreadPool.QueueIsAttended` | src/threadpool.c:178-183 | while tasks are queued some worker is not waiting or some producer has yet to signal |
| `ThreadPool.WorkersCoverQueue` | src/threadpool.c:20-31 | workers awake plus signals on the way are at least as many as queued tasks, up to the number of workers |
| `ThreadPool.TakesLeastPriority` | src/threadpool.c:38-41 | in every interleaving a worker takes a task whose call gave a priority of at most that given for any other queued task |
| `ThreadPool.DealtWithAsCalled` | src/threadpool.c:45-57 | every task a worker has dealt with is that of a call, with its function set or not as the call gave it |
| `ThreadPool.EveryThreadCanStep` | src/threadpool.c:14-69 | every producer and every worker that is not waiting can take its next step |
| `ThreadPool.QueuedWorkProceeds` | src/threadpool.c:20-31 | while tasks are queued some worker that is awake or some producer about to signal can take its next step, without any wait that returns by itself |
| `Dispatch.DueBatchIsExact` | src/action_scheduler.cpp:121-148 | a due batch has each due entry as often as the queue has it, and no other, however ties fall |
| `Dispatch.DueBatchExists` | src/action_scheduler.cpp:121-148 | every queue has a due batch for every time |
| `Dispatch.ProgressStep` | src/action_scheduler.cpp:127-134 | handing off one more least entry keeps the order, the account of slots and the fields handed over |
| `Dispatch.ProgressEnds` | src/action_scheduler.cpp:136-147 | if the entry at the root is not due, what was handed off is the whole due batch |
| `Dispatch.TaskQueue.QueueAction` | src/nativeactor.cpp:150-167 | exactly one entry is added, in a fresh slot that holds the task's fields |
| `Dispatch.TaskQueue.HandOffLeast` | src/action_scheduler.cpp:129-134 | one round extracts a least due task, hands its fields over and frees its slot, in this order |
| `Dispatch.TaskQueue.DispatchActor` | src/action_scheduler.cpp:121-148 | exactly the entries with key at most now go out, in nondecreasing key order, each once, and their slots return to the pool; with keys of a clock these are the entries whose time in nanoseconds is not after now |
| `Dispatch.TaskQueue.TimedRound` | src/tickthread.c:58-67 | one round hands off a least due task, or tells that none is due |
| `Dispatch.TaskQueue.DispatchTimed` | src/tickthread.c:57-68 | the same for the timed queue over whole seconds |
| `Dispatch.DueBatchByClock` | src/action_scheduler.cpp:127 | for timestamps of a clock, due means a time in nanoseconds of at most now, and the batch ascends in it |
| `TickThread.AddKeepsAccounted` | src/server.c:70-72 | adding a timed task loses and doubles none |
| `TickThread.TickKeepsAccounted` | src/tickthread.c:57-68 | nor does a pass of the tick thread |
| `TickThread.StepKeepsOnTime` | src/tickthread.c:57-68 | no step hands off a task before its second |
| `TickThread.RunsKeepInvariant` | src/tickthread.c:49-71 | both hold in every state of every interleaving, whatever the clock shows |
| `TickThread.TimedTasksGoOutOnceAndOnTime` | src/tickthread.c:49-71 | over whole runs no timed task is handed off early or twice, and one not handed off is still queued |
| `TickThread.TickHandsOffAllDue` | src/tickthread.c:57-68 | a pass hands off every task queued by then whose second has come |
| `TickThread.HandedOffExactlyWhenDue` | src/tickthread.c:49-71 | over every run, the task of a Server_AddTimedTask call is handed off if and only if a later pass read a second of at least the one the call gave |
| `TickThread.TickIsPossible` | src/tickthread.c:57-68 | a pass is possible in every state |
| `Scheduler.StepKeepsNotStranded` | src/action_scheduler.cpp:111-165 | no step leaves a non-empty queue outside the active set without a producer about to add its actor |
| `Scheduler.StepKeepsRefs` | src/action_scheduler.cpp:63-73 | adding and erasing keep one reference per set member |
| `Scheduler.StepKeepsAccounted` | src/action_scheduler.cpp:121-148 | no step loses or doubles a queued task |
| `Scheduler.StepKeepsPassCovers` | src/action_scheduler.cpp:114-164 | during a pass the actors still to visit hold all due tasks that were there at its start |
| `Scheduler.RunsKeepInvariant` | src/action_scheduler.cpp:102-165 | the invariant holds in every state of every interleaving |
| `Scheduler.NoActorIsStranded` | src/nativeactor.cpp:165-178 | a non-empty queue always has its actor in the active set, not about to be erased, or a producer between its insert and its `AddActiveActor` |
| `Scheduler.OneReferencePerMember` | src/action_scheduler.cpp:63-73 | at every point except between `Release` and `erase`, the scheduler holds one reference on each member and none on other actors |
| `Scheduler.TasksGoOutOnceAndOnTime` | src/action_scheduler.cpp:121-148 | over whole runs no task is handed off before its time or twice, and one not handed off is still queued |
| `Scheduler.ActiveGrowsBetweenPasses` | src/action_scheduler.cpp:63-73 | between passes the active set gains exactly new actors and those a producer announces |
| `Scheduler.PassRemembers` | src/action_scheduler.cpp:104-118 | in every state of a pass the scheduler goes by the time, queues and members of the state it began in, and has still to visit exactly the members not visited |
| `Scheduler.PassVisitsAll` | src/action_scheduler.cpp:114-164 | a finished pass has visited every actor that was in the active set when it began |
| `Scheduler.PassHandsOffAllDue` | src/action_scheduler.cpp:114-164 | a finished pass has handed off every task that was queued with an actor of the active set, and due at the time read, when it began |
| `Scheduler.PassHandsOffAtItsTime` | src/action_scheduler.cpp:127-134 | what a pass hands off goes out with the time the pass read |
| `Scheduler.PassDropsIdle` | src/action_scheduler.cpp:150-157 | a finished pass takes out of the active set exactly the actors whose queue its visit left empty |
| `Scheduler.HandedOffExactlyWhenVisited` | src/action_scheduler.cpp:102-166 | over every run, the task of a QueueAction call is handed off if and only if a later visit of its actor belongs to a pass that read a time of at least the key the call gave |
| `Scheduler.SchedulerNeverStuck` | src/action_scheduler.cpp:102-165 | the scheduler thread can always take its next step |
| `Telnet.ErrorIsAbsorbing` | src/telnet.c:288-385 | no byte leads out of the error state, and nothing is collected or sent in it |
| `Telnet.RunExplained` | src/telnet.c:288-385 | soundness: a run that has not failed has read a list of items and part of one, and its data, options and replies are theirs |
| `Telnet.RunsItems` | src/telnet.c:288-385 | completeness: every list of items within capacity is read back to the input state |
| `Telnet.AcceptsExactlyItems` | src/telnet.c:288-385 | the run ends at input if and only if the bytes decompose into data, two-byte, three-byte and subnegotiation items within capacity; the dump is then exactly the data bytes |
| `Telnet.CommandStateHoldsVerb` | src/telnet.c:307-325 | in the command state the input is a list of items, IAC and a verb, and the last byte is that verb |
| `Telnet.TwoByteCommands` | src/telnet.c:105-108 | behind 255 exactly the bytes 240 to 249 complete a command, which changes and sends nothing |
| `Telnet.OptionsUpTo140` | src/telnet.c:110-113 | options up to 140 are taken; a higher byte fails the stream without an answer |
| `Telnet.UnknownOptionsAreRefused` | src/telnet.c:199-210 | an offer or request of an option outside 1, 3, 24, 32, 34, 86, 87 is answered by the one command that refuses it; no other verb is answered |
| `Telnet.KnownOptionsChange` | src/telnet.c:151-198 | which option bits each verb turns on and off, per known option |
| `Telnet.KnownOptionsAnswer` | src/telnet.c:137-166 | which subnegotiation each known option is answered by, if any |
| `Telnet.SubnegotiationTurnsOn87` | src/telnet.c:213-275 | a subnegotiation turns compressed input on exactly if it starts with 87, and is not answered |
| `Telnet.RefusalEndsIt` | src/telnet.c:199-210 | a parser that reads the refusal sends nothing |
| `Telnet.NegotiationEnds` | src/telnet.c:130-211 | whatever bytes one parser has read, another one reads what it sent to the end, without data, failure or answer |
| `Telnet.DecompositionIsUnique` | src/telnet.c:105-113 | a byte string decomposes into items in at most one way |
| `Telnet.CharVector.PushLimited` | src/charvector.c:147-160 | appends one byte, or reports and changes nothing when full |
| `Telnet.CharVector.Clear` | src/charvector.c:50-54 | empties the buffer |
| `Telnet.TelnetStream.Run3ByteCmd` | src/telnet.c:130-211 | updates the options and appends the reply that the verb and option call for, as the four lemmas on unknown and known options give them in numbers |
| `Telnet.TelnetStream.ProcessByte` | src/telnet.c:288-385 | the in-place step is the step function the theorems are about; nonzero exactly outside the input state |
| `TagLexer.Result.AddTaggedToken` | src/cmdtaglexer.c:135-158 | appends one token, with growth when full, and keeps the running total of token lengths |
| `TagLexer.ShouldCapitalize` | src/cmdtaglexer.c:160-175 | true exactly when the offset as an `int` is negative or no letter lies between that place, itself included, and the full stop before it or the start of the text |
| `TagLexer.CapFlagIsRightBelow2G` | src/cmdtaglexer.c:162 | for all texts that is the symbol's own place if and only if the offset is below 2^31 |
| `TagLexer.SentenceStart` | src/cmdtaglexer.c:160-175 | a symbol starts a sentence if and only if no letter stands between it and a full stop before it, or the start of the text |
| `TagLexer.Classes` | src/cmdtaglexer.c:165-191 | letters, digits and capitals by their ASCII codes |
| `TagLexer.OrderedPairs` | src/cmdtaglexer.c:182-205 | tokens each behind the one before are pairwise disjoint and strictly ordered |
| `TagLexer.ReadRun` | src/cmdtaglexer.c:187-202 | the run behind a symbol becomes a token if it has a letter or digit, and reading goes on behind it |
| `TagLexer.ParseRound` | src/cmdtaglexer.c:184-206 | one round finds the next symbol and either its token or that there is none, and moves on |
| `TagLexer.Parse` | src/cmdtaglexer.c:177-207 | the tokens are in bounds, strictly ordered, disjoint, maximal runs behind a symbol with the flag of their offset, none is missed, and the total is their sum |
| `TagLexer.SplicedLength` | src/cmdtaglexer.c:56-77 | gaps plus substitutes have the length the counts say |
| `TagLexer.SubstitutedLength` | src/cmdtaglexer.c:56-61 | the substituted text has as many characters as the buffer was measured for, and the subtraction of the token lengths does not go below zero |
| `TagLexer.TokenKeepsCase` | src/cmdtaglexer.c:69-72 | no token at an offset below 2^31 is raised, nor any whose tag symbols are no small letters |
| `TagLexer.SelfSubstitution` | src/cmdtaglexer.c:49-80 | substituting every parsed token by itself gives back the text if and only if no token is raised; so it does in all texts of up to 2^31 characters, for any tag symbols |
| `TagLexer.LongTextIsChanged` | src/cmdtaglexer.c:160-175 | a text of 2^31 + 2 characters that does not come back |
| `TagLexer.TotalsCoverTexts` | src/cmdtaglexer.c:91-97 | the total of the recorded lengths covers the substitutes, and is their sum if and only if every length is right |
| `TagLexer.SubList.AddSub` | src/cmdtaglexer.c:82-98 | appends one substitute, cut at the length given or at its own end, with growth when full, and keeps the running total of the lengths given |
| `TagLexer.SpliceOne` | src/cmdtaglexer.c:65-76 | one round appends the gap and the substitute with its first letter raised where due |
| `TagLexer.RaisedLetter` | src/cmdtaglexer.c:69-72 | raising puts the capital at the same place of the alphabet for a small first letter and leaves everything else alone |
| `TagLexer.SpliceAll` | src/cmdtaglexer.c:63-77 | the loop splices all substitutes into the text in place of the tokens |
| `TagLexer.PerformSub` | src/cmdtaglexer.c:49-80 | null exactly when the counts differ; otherwise the text with every token replaced, which fits the measured buffer and has exactly required - 1 characters if and only if every substitute is as long as was said; of the substitutes only the letters raised in place change |
| `BitUtils.NtzCounts` | src/bitutils.c:22-32 | the lookup modulo 37 counts the trailing zeros of every 32-bit word, 32 for zero |
| `BitUtils.NlzCounts` | src/bitutils.c:3-20 | the smear, multiply and table lookup counts the leading zeros of every 32-bit word, 32 for zero |
| `BitUtils.NtzFindsByte` | src/bitutils.c:134-142 | trailing zeros over eight number the lowest non-zero byte |
| `BitUtils.NlzFindsByte` | src/bitutils.c:185-191 | three less leading zeros over eight number the highest non-zero byte |
| `Words.CtzFindsByte` | src/bitutils.c:61-67 | on a little-endian load of eight bytes, trailing zeros over eight number the first non-zero byte |
| `Words.ClzFindsByte` | src/bitutils.c:109-115 | on the same load, seven less leading zeros over eight number the last non-zero byte |
| `Words.NtzPointsAt` | src/bitutils.c:134-142 | the first non-zero byte of a four-byte load |
| `Words.NlzPointsAt` | src/bitutils.c:185-191 | the last non-zero byte of a four-byte load |
| `Words.FirstInWord64` | src/utf8.c:15-22 | one masked 64-bit test finds the first byte that hits, or that none does |
| `Words.LastInWord64` | src/bitutils.c:109-115 | one masked 64-bit test finds the last byte that hits, or that none does |
| `Words.FirstInWord32` | src/utf8.c:50-58 | the 32-bit form |
| `Words.LastInWord32` | src/bitutils.c:185-191 | the 32-bit form |
| `Scan.SearchIsUnique` | src/bitutils.c:52-196 | first and last hit are determined by the bytes, so both builds agree with the byte loop and each other |
| `Scan.FindFirst64` | src/bitutils.c:52-82 | the word-at-a-time search returns the first hit in the given length or none, for every string |
| `Scan.TailIsRightWithoutWrap` | src/bitutils.c:145-148 | words and tail of the 32-bit build make up the string if and only if the unsigned shift does not wrap; 2^32 bytes are a counterexample |
| `Scan.FindFirst32` | src/bitutils.c:124-158 | the same in the 32-bit build, wherever that shift does not wrap |
| `Scan.LastIndexFitsUpTo2G` | src/bitutils.c:91 | the index of the last byte survives the conversion to `int` if and only if there are at most 2^31 bytes |
| `Scan.LastInTail` | src/bitutils.c:89-100 | the bytes behind the last whole word are searched from the back |
| `Scan.LastNonspace64` | src/bitutils.c:84-121 | the last non-space in the given length or none, for lengths whose last index is an `int` |
| `Scan.LastNonspace32` | src/bitutils.c:160-196 | the same in the 32-bit build |
| `Scan.TrimString` | src/as_api.cpp:199-216 | keeps exactly the span from first to last non-space; a string of spaces comes back whole |
| `Scan.TrimIsUnique` | src/as_api.cpp:199-216 | the string determines what a trim keeps, so both builds return the same |
| `Scan.FindStart` | src/utf8.c:6-75 | the first byte above 0x7F at or behind a place, in both builds |
| `Scan.LeadTellsLength` | src/bitutils.c:34-49 | the leading ones of a well-formed character's first byte are its length |
| `Scan.AsciiFront` | src/utf8.c:86-88 | a run of ASCII bytes counts one code point each |
| `Scan.NextChar` | src/utf8.c:86-89 | skipping an ASCII run and one multi-byte character leaves well-formed text, with the counts split accordingly |
| `Scan.CountReach` | src/utf8.c:90 | the shortened length never reaches beyond the ASCII bytes behind the text |
| `Scan.CountEnd` | src/utf8.c:92 | the rest, measured from a place that trails by one byte per multi-byte character, completes the count |
| `Scan.CountRound` | src/utf8.c:84-91 | one round keeps the telescoping account of code points and bytes and moves on |
| `Scan.Utf8StrNLen` | src/utf8.c:77-93 | the loop ends and returns the number of code points up to the first NUL or the given length |
| `Scan.RoundMovesOnBelowF6` | src/utf8.c:86-89 | the place moves on behind the byte a round stopped at if and only if that byte is below 0xF6 |
| `Scan.RestLengthIsRight` | src/utf8.c:87-90 | the length for the next scan does not exceed the given one, and then is what remains, if and only if something was read and the character less one byte fits into what was left |
| `Scan.StuckAtInvalidByte` | src/utf8.c:86-90 | on a byte from 0xF6 on the next scan stops at the same place |
| `Scan.StuckInput` | src/utf8.c:86-90 | the one-byte string 0xFF with its NUL is such an input: the next scan is given two bytes, since the count of bytes wraps, and stops there again |
| `Scan.CutInput` | src/utf8.c:86-90 | a four-byte character cut after one byte and a NUL: the round moves on behind the memory and the remaining length wraps |
| `LineEditor.CountNewlines` | src/textutil.c:557-570 | the number of newlines |
| `LineEditor.SegmentPrefix` | src/leditor.cpp:182-216 | the segments can be cut anywhere and go on from the start of the next one |
| `LineEditor.SegmentsStable` | src/leditor.cpp:162-180 | text appended behind the old end moves no complete segment |
| `LineEditor.IndexTilesBuffer` | src/leditor.cpp:182-228 | the index is exactly the tiling of the buffer by its newlines, or one whole-buffer line when there is none |
| `LineEditor.IndexSize` | src/leditor.cpp:182-228 | a line per newline, and one line when there is none |
| `LineEditor.AppendKeepsPrefix` | src/leditor.cpp:177-179 | after an append the old index without its last line is right for the new buffer |
| `LineEditor.LimitsKept` | src/leditor.cpp:164-175 | counting the new newlines against the indexed lines bounds the lines of the new buffer |
| `LineEditor.Editor.RebuildRound` | src/leditor.cpp:200-225 | one round adds the next line, or completes the index |
| `LineEditor.Editor.RebuildLineIndices` | src/leditor.cpp:182-228 | rebuilding from any line up to which the index is right gives the full index; from a line beyond the index nothing changes |
| `LineEditor.Editor.Append` | src/leditor.cpp:162-180 | accepted exactly when both limits allow it; an accepted append leaves the full index of the longer buffer, a rejected one changes nothing |
| `DoubleWord.SumPartials` | src/gmp-6.2.0/longlong.h:2115-2121 | the partial products add up to the double-word result; the one carry out of the middle is recovered by the wrap test |
| `DoubleWord.Umul` | src/gmp-6.2.0/longlong.h:2099-2122 | w1 * B + w0 == u * v for all words |
| `DoubleWord.QuotientBound` | src/gmp-6.2.0/longlong.h:2149 | the half-word estimate from the top half of a normalized divisor is at most H + 1 |
| `DoubleWord.Correct` | src/gmp-6.2.0/longlong.h:2152-2159 | at most two corrections, told apart by the wrap of the word, bring the remainder into range |
| `DoubleWord.RemainderMakesDigit` | src/gmp-6.2.0/longlong.h:2148-2160 | a quotient whose remainder is in range is a half-word digit |
| `DoubleWord.DivideHalf` | src/gmp-6.2.0/longlong.h:2148-2173 | one half step yields the next quotient digit and the exact remainder |
| `DoubleWord.Digits` | src/gmp-6.2.0/longlong.h:2175-2176 | the two digits join to the quotient of the whole dividend |
| `DoubleWord.UdivQrnnd` | src/gmp-6.2.0/longlong.h:2139-2177 | q * d + r == n1 * B + n0 with r < d, for d with its top bit set and n1 < d |
| `DoubleWord.DivisionIsUnique` | src/gmp-6.2.0/longlong.h:2139-2177 | that equation determines quotient and remainder |
| `DoubleWord.DivideProduct` | src/gmp-6.2.0/longlong.h:2099-2177 | dividing a product by its normalized factor returns the other factor and no remainder |
| `Primality.TableIsRight` | src/gmp-6.2.0/bootstrap.c:46-47 | the bit table lists exactly the primes below 32 |
| `Primality.SmallDivisors` | src/gmp-6.2.0/bootstrap.c:48-56 | after the four fixed divisors no divisor below 11 is left |
| `Primality.WheelStep` | src/gmp-6.2.0/bootstrap.c:66-73 | the numbers skipped by +2 and +4 cannot be least divisors |
| `Primality.SquareRootSuffices` | src/gmp-6.2.0/bootstrap.c:62-70 | leaving when the quotient falls below the divisor is sound |
| `Primality.TryDivisor` | src/gmp-6.2.0/bootstrap.c:60-65 | one candidate decides, or rules itself out and leaves room for the next |
| `Primality.TrialDivision` | src/gmp-6.2.0/bootstrap.c:58-75 | the loop ends and its answer is right |
| `Primality.IsPrimeNumber` | src/gmp-6.2.0/bootstrap.c:41-76 | nonzero exactly when t is prime, for every unsigned long |
| `ScriptArray.CheckIsExact` | src/as_addons/scriptarray.cpp:754-774 | the limit lets through exactly the element counts whose buffer size fits 32 bits |
| `ScriptArray.ClampIsRightBelowHalf` | src/as_addons/scriptarray.cpp:684-690 | a removal takes what was asked for or all there is, if and only if there are fewer than 2^31 elements; 3,000,000,000 one-byte elements are a counterexample |
| `ScriptArray.ClampBelowHalf` | src/as_addons/scriptarray.cpp:684-690 | below 2^31 elements no more is removed than there is |
| `ScriptArray.WideElementsStayBelowHalf` | src/as_addons/scriptarray.cpp:754-774 | elements of two or more bytes never reach 2^31 |
| `ScriptArray.GrowthIsExactWithoutWrap` | src/as_addons/scriptarray.cpp:829-830 | the size an insertion asks for is the sum of the sizes if and only if neither the cast nor the sum wraps |
| `ScriptArray.ResizeReachesExactly` | src/as_addons/scriptarray.cpp:645-651 | the change `Resize` asks for leads to the wanted size if and only if both sizes are below 2^31, or neither is and the array does not shrink; growing from 1 to 3,000,000,000 elements removes the element instead |
| `ScriptArray.CapIsRightWithoutWrap` | src/as_addons/scriptarray.cpp:667-669 | the cap is the number of elements from start on if and only if start + count does not wrap, with a counterexample |
| `ScriptArray.InsertionAccounted` | src/as_addons/scriptarray.cpp:727-728 | after an insertion every slot has an object of its own and these are exactly the live ones |
| `ScriptArray.CScriptArray.SlotsHoldDistinctObjects` | src/as_addons/scriptarray.cpp:947-997 | two slots of an array never hold the same object |
| `ScriptArray.RemovalAccounted` | src/as_addons/scriptarray.cpp:671-678 | the same after a removal: released were exactly the objects of the removed slots |
| `ScriptArray.RemoveUndoesInsert` | src/as_addons/scriptarray.cpp:735-750 | removing what was inserted gives back the elements and the live objects from before |
| `ScriptArray.InsertedValues` | src/as_addons/scriptarray.cpp:809-862 | what a script sees of an insertion at i is a[..i] + values + a[i..] |
| `ScriptArray.FilledGap` | src/as_addons/scriptarray.cpp:831-861 | writing the values into the new slots makes the insertion of default elements one of these values |
| `ScriptArray.CScriptArray.constructor` | src/as_addons/scriptarray.cpp:918-935 | the given number of default elements, each an object of its own |
| `ScriptArray.CScriptArray.Construct` | src/as_addons/scriptarray.cpp:947-979 | new default objects in exactly the slots of a range |
| `ScriptArray.CScriptArray.Destruct` | src/as_addons/scriptarray.cpp:982-997 | releases exactly the objects in the slots of a range |
| `ScriptArray.CScriptArray.GrowByCopy` | src/as_addons/scriptarray.cpp:703-734 | the reallocating branch is a sequence insertion of new objects, into a buffer of exactly the new size |
| `ScriptArray.CScriptArray.OpenGap` | src/as_addons/scriptarray.cpp:747-748 | the tail moves up and the gap is filled with new objects, in spite of the overlap |
| `ScriptArray.CScriptArray.GrowInPlace` | src/as_addons/scriptarray.cpp:743-750 | the in-place branch is the same insertion |
| `ScriptArray.CScriptArray.CloseGap` | src/as_addons/scriptarray.cpp:735-742 | removal is a sequence deletion that releases the removed objects |
| `ScriptArray.CScriptArray.Clamp` | src/as_addons/scriptarray.cpp:684-699 | no more is removed than there is, and the place of a change lies inside the array |
| `ScriptArray.CScriptArray.ResizeAt` | src/as_addons/scriptarray.cpp:682-751 | insertion or deletion at the clamped place whichever branch is taken; nothing changes when the size is too large |
| `ScriptArray.CScriptArray.Resize` | src/as_addons/scriptarray.cpp:645-651 | cuts the end off or fills up with new default elements, whenever the change asked for leads to the size; rejects sizes that are too large |
| `ScriptArray.CScriptArray.SetValue` | src/as_addons/scriptarray.cpp:556-589 | changes the value of one element, which stays the same object; out of range changes nothing |
| `ScriptArray.CScriptArray.InsertAt` | src/as_addons/scriptarray.cpp:791-807 | inserts one new object with the value, or reports why not; where the array cannot grow the element at the index is overwritten |
| `ScriptArray.CScriptArray.CopyFrom` | src/as_addons/scriptarray.cpp:833-839 | writes the other array's values from the index on, as far as both reach |
| `ScriptArray.CScriptArray.CopyFront` | src/as_addons/scriptarray.cpp:846-852 | writes the elements before the index from the index on without reading what it wrote |
| `ScriptArray.CScriptArray.CopyBack` | src/as_addons/scriptarray.cpp:854-860 | the elements behind the gap complete the copy of the array into itself |
| `ScriptArray.CScriptArray.InsertArrayAt` | src/as_addons/scriptarray.cpp:809-862 | inserts copies of all elements of an array, which may be this one, giving a[..i] + a + a[i..]; each failure is told apart and its effect stated |
| `ScriptArray.CScriptArray.RemoveAt` | src/as_addons/scriptarray.cpp:869-882 | deletes one element and releases its object, or reports an index out of range |
| `ScriptArray.CScriptArray.RemoveRange` | src/as_addons/scriptarray.cpp:653-679 | deletes the range as far as it reaches into the array and releases just its objects |

## Left out

- `ReflowText.ReflowParagraph`: starts from the word list; the early return for short text (src/textutil.c:334-353), tokenizing, the indent of the first word and `StripNewline` and `FindParagraphs` are not modelled, and word widths are inputs. The slot behind the last word is read as zero, as the source has it if and only if the count is not 64 times a power of eight, see ReflowText.SlotBehindLastWord. Nothing is said where a cost leaves `int`, see Reflow.OverflowsExactlyAboveMaxWidth, or where the total width does (`FitsInt`).
- `ReflowText.MeasureWords`: covers paragraphs whose total width with the spaces is an `int`.
- `ReflowLoop.FillBreaks`: covers paragraphs whose costs fit on top of the sentinel, as do CostOf and RelaxFrom.
- `Reflow.MinimaAreOptimal`: is about paragraphs without hyphen points; with them a counter over all lines tried so far makes the choice depend on history, and Reflow.HyphensNeverCostMore bounds the cost from above only.
- `ReflowLoop.HyphensAreApart`: covers double loops whose count of cheaper lines times the width is an `int`, so that the counter does not wrap.
- `ReflowText.LineWidthIsTextWidth`: is about plain words; control sequences take no columns but count a space to each neighbour.
- `MinHeap.Heap.MinInsert`: covers heaps of fewer than 2^31 entries, see MinHeap.PlaceOfLastNode, and assumes that the enlarged array can be had; `extract_min_node`, the debug checks and `initfromarray` are not modelled.
- `MinHeap.Heap.DecreaseKey`: covers places an `int` can hold, with the node given being the one stored there, as its one caller has it.
- `MinHeap.Heap.BuildMinHeap`: covers heaps whose last inner place is an `int`.
- `MinHeap.Heap.constructor`: covers lengths whose double is an `int`.
- `Dispatch.TaskQueue.QueueAction`: covers queues of fewer than 2^31 tasks, like MinHeap.Heap.MinInsert.
- `PoolAlloc.RunsStayConsistent`: memory is one sequence holding the first word of each slot; allocation never fails and destruction is not modelled.
- `PoolAlloc.MemoryPool.Take`: is atomic as a whole; the source allocates from a new pool just after releasing the lock.
- `Dispatch.TaskQueue.DispatchActor`: `ThreadPool_AddTask` is the list of tasks handed over, one block size of the actor's memory pool is modelled, and the wake-time calculation (src/action_scheduler.cpp:138-146) is not.
- `ThreadPool.RunsKeepInvariant`: states are values, locked regions atomic steps and queues of any length; shutdown, errors of `pthread_cond_wait` and thread creation are not modelled, nor is fairness.
- `Scheduler.RunsKeepInvariant`: states are values with queues of any length, the order in which a pass visits the actors is arbitrary; `RemoveActor`, the end of an actor's life, sleeping and signalling of the scheduler thread are not modelled.
- `TickThread.RunsKeepInvariant`: states are values with queues of any length; the world tick and the delay between passes are not modelled.
- `Telnet.TelnetStream.ProcessByte`: socket writes are bytes appended to a log; of the subnegotiations only the effect on the options is modelled, not terminal speed and type.
- `TagLexer.Parse`: strings are NUL-free and letters those of the C locale.
- `Scan.Utf8StrNLen`: covers well-formed text whose following scanned bytes are ASCII, and in the 32-bit build lengths below 2^32; for other bytes only the conditions of one round are proved, Scan.RoundMovesOnBelowF6 for the place and Scan.RestLengthIsRight for the length, with a failing input for each, Scan.StuckInput and Scan.CutInput.
- `Scan.FindFirst32`: covers lengths whose word count the unsigned shift keeps, see Scan.TailIsRightWithoutWrap.
- `Scan.LastNonspace64`: covers up to 2^31 bytes, see Scan.LastIndexFitsUpTo2G; alignment of the word loads is not modelled.
- `LineEditor.Editor.Append`: appends are NUL-free and messages to the client a boolean result; insertion and deletion of lines are not modelled.
- `DoubleWord.UdivQrnnd`: words have 64 bits; `|` of operands without common bits is a sum.
- `ScriptArray.CScriptArray.RemoveAt`: covers removals from arrays below 2^31 elements; ScriptArray.ClampIsRightBelowHalf shows that the code is wrong for larger ones.
- `ScriptArray.CScriptArray.Resize`: covers exactly the sizes the change asked for leads to, and those too large; ScriptArray.ResizeReachesExactly shows that the code is wrong for all others.
- `ScriptArray.CScriptArray.RemoveRange`: covers ranges whose end does not wrap; ScriptArray.CapIsRightWithoutWrap shows that the code is wrong for all others.
- `ScriptArray.CScriptArray.InsertArrayAt`: covers sizes whose sum does not wrap, see ScriptArray.GrowthIsExactWithoutWrap; arrays of handles and running out of memory are not modelled.
- `ScriptArray.CScriptArray.Construct`: elements are script objects and their factory succeeds; for primitives the identities have no counterpart.
- Sockets, epoll, zlib, libsodium, SQLite, AngelScript's engine, logging and file loading are input and output or foreign code.
- `UUID` formatting, the number wrappers, `SQLiteVariant`, `Vector` and the color table would only add easy members.
- GMP beyond the portable multiplication, division and primality test is not part of this model.
