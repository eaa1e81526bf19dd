# ScalBase in Dafny

A model of the six components of ScalBase whose correctness is not visible from reading one function:
the Robin Hood hash map, the general-purpose allocator, the lock-free ring queue, the job system, the
profiler scopes and the binary heap, with the power-of-two arithmetic they rest on. `dafny verify
dfyconfig.toml` checks the whole project.

Machine words are natural numbers with every wrap written out (`% U64`, `% U16`, `ToI32`), and `&` is
defined bit by bit. Objects that the source updates in place are classes over arrays, maps and
sequences; each method is tied to a specification of the whole new state, and the theorems are lemmas
about those specifications. The two concurrent components are machines whose schedules are arbitrary
sequences of atomic steps by any threads, under sequential consistency.

| module | models |
|---|---|
| `Base`, `Ring`, `Sets`, `Sums` | power-of-two helpers of Base.h; positions on a ring; sizes of sets; sums |
| `RobinHood`, `HashMaps`, `HistoryIndependence` | `StaticHashMap` and the rehash of `DHashMap` |
| `FreeLists`, `HeapAllocator` | the general-purpose allocator on its bucket path |
| `QueueThreaded` | the ring queue, called alone and step by step |
| `JobGroups`, `Jobs` | group arithmetic, the job system run by one thread |
| `JobsMachine`, `JobsProgress` | the job system run by any number of threads: what it keeps, and that it gets done |
| `Debug` | profiler scopes |
| `BHeap` | the binary heap |

Results worth knowing before using the code:

- The hash map's layout (`IsUsed` and `ProbeLength` of every slot) depends only on how many stored keys have
  each home slot, on full tables too, and determines those numbers. `Remove` of an absent key ends if and only
  if the table is empty or some slot is unused; `FullTable` reaches a table on which it does not end.
  `ProbeLength` is a `u16`: that width is enough for every table if and only if at most 65536 entries are
  allowed.
- A consumer that is overtaken by whole laps between its load and its compare-exchange can claim from an
  empty queue, and that is the only way in which `First` passes `Last`. It is impossible if and only if the
  queue has one slot or at most one consumer. A claim also frees its slot before it is copied: even without
  whole laps every copy is right if and only if there is one slot or at most one consumer.
- A job handle counts in an `i32`. In all runs it reads as busy exactly while a group is unfinished on it, and
  waiting returns only when every job index announced on it has run exactly once, if and only if fewer than 2^31
  groups are submitted on it. After a full queue has refused a group the handle stays busy below that number.
- With a worker, whatever the schedule, no run without new calls goes on for ever, and it stands still only when
  every call has returned and everything that was not refused has run. The groups of a handle can all be finished
  if and only if none of them was refused.
- Dispatched onto empty queues, exactly the groups beyond 255 per queue are refused. Dispatching and waiting alone
  runs every index exactly once if and only if there are at most 255 groups per queue and fewer than 2^31 in all;
  with more per queue the wait does not end, and from 2^31 groups on it returns before anything has run. The
  groups cover the job range if and only if `jobCount + groupSize - 1` does not wrap.
- The allocator's exhaustion test and bucket index are right exactly under the conditions of
  `OutOfMemoryIff` and `BucketExistsIff`. The comment at Lib/HeapAllocator.h:52 puts the minimum size
  512 at index 0; the code puts it at index 1, and the model follows the code.
- Pushing onto the heap keeps heap order if and only if `CompareFunc` agrees with the pointer order that
  heapifying uses.

## Model

| member | source | states |
|---|---|---|
| Base.IsPowerOf2Correct | Base.h:417-421 | the bit test accepts exactly the powers of two |
| Base.FastModuloIsMod | Base.h:368 | for a power-of-two capacity the mask is the remainder, below the capacity |
| Base.AlignSizeLeastMultiple | Base.h:429-433 | the result is the least multiple that holds the size when the sum does not wrap, and zero exactly when it wraps |
| Base.CeilPow2Least | Base.h:397-415 | the reference rounding is the least power of two at least x |
| Base.AlignPowTwoCeil | Base.h:397-415 | the shift loop, at either width, returns that rounding if and only if x is at most half the word range, and zero above |
| Base.BitScanForwardOfPower | Lib/HeapAllocator.h:56-58 | the lowest set bit of 2^k is bit k |
| RobinHood.EarlyExit | Lib/HashMaps.h:180-198 | a search that meets an unused slot or a shorter probe has not missed the key |
| RobinHood.ProbeBelowCount | Lib/HashMaps.h:109-152 | every probe length is less than the number of entries |
| RobinHood.ProbesFitIff | Lib/HashMaps.h:18-18 | all probe lengths of all tables with `count` entries fit a field if and only if `count` does not exceed its range |
| RobinHood.InsertingFound | Lib/HashMaps.h:127-132 | an existing key is met before any bucket was displaced, so nothing has changed |
| RobinHood.InsertingStores | Lib/HashMaps.h:115-125 | filling the open slot yields a well-formed ring whose contents gained exactly the new binding, stored at the reported slot |
| RobinHood.InsertingSwaps | Lib/HashMaps.h:134-145 | displacing a richer bucket loses no binding and keeps every probe length true |
| RobinHood.InsertingPasses | Lib/HashMaps.h:147-150 | moving on keeps the carried probe length true and at most the number of entries |
| RobinHood.ShiftStep | Lib/HashMaps.h:246-250 | shifting one bucket back keeps all other bindings, true probe lengths and the probe chain, across wrap-around |
| RobinHood.ShiftEnds | Lib/HashMaps.h:239-245 | clearing the last slot leaves a well-formed ring with exactly the other bindings |
| RobinHood.ContentsSize | Lib/HashMaps.h:123-123 | the number of used slots is the size of the abstract map |
| HashMaps.HomeInRange | Lib/HashMaps.h:111-111 | the masked hash is the hash modulo the capacity |
| HashMaps.LoadLimit | Lib/HashMaps.h:86-86 | the entry limit is the whole part of capacity times load factor, and never exceeds the capacity |
| HashMaps.StaticHashMap.Init | Lib/HashMaps.h:68-89 | over zeroed memory, which may be larger: a valid empty map of the rounded capacity and the truncated limit |
| HashMaps.StaticHashMap.Add | Lib/HashMaps.h:91-155 | full answers first; a stored key changes nothing and is located; a new key adds exactly its binding; at most Capacity probes; memory behind the table is untouched |
| HashMaps.StaticHashMap.Replace | Lib/HashMaps.h:157-167 | true exactly when a stored key was overwritten; an absent key is added; a full table ignores the call |
| HashMaps.StaticHashMap.Get | Lib/HashMaps.h:169-201 | the slot that holds the key and its value if the key is stored, else nothing, within Capacity + 1 probes |
| HashMaps.StaticHashMap.Write | Lib/HashMaps.h:189-189 | writing through the pointer that Get returned rebinds exactly that key |
| HashMaps.StaticHashMap.Clear | Lib/HashMaps.h:203-211 | the empty map |
| HashMaps.StaticHashMap.Remove | Lib/HashMaps.h:213-263 | removes exactly the key's binding and says whether there was one |
| HashMaps.StaticHashMap.ShiftBack | Lib/HashMaps.h:232-251 | the backward shift ends and restores the invariant without the removed binding, on full tables too |
| HashMaps.SearchStopsIff | Lib/HashMaps.h:221-259 | the search of Remove reaches an exit if and only if some slot is unused or the key is stored |
| HashMaps.FullTable | Lib/HashMaps.h:221-259 | a table with one slot and load factor 1 after one Add, on which the search for any other key has no exit |
| HashMaps.Perform | Lib/HashMaps.h:91-263 | each call refines the operation on the abstract map |
| HashMaps.Run | Lib/HashMaps.h:91-263 | after any run of operations the table holds what the abstract map holds |
| HashMaps.LoadLimitGrows | Lib/HashMaps.h:295-295 | with 0.85f the limit is floor(c * 14260634 / 2^24), between 1 and c - 1 for c at least 2, and never falls as c grows |
| HashMaps.Rehash | Lib/HashMaps.h:327-335 | copying into a table with room meets neither a full table nor a duplicate and keeps map and count |
| HashMaps.DHashMap.Resize | Lib/HashMaps.h:299-346 | the capacity becomes the larger of the old one and the requested one; the abstract map and the count are kept |
| HashMaps.RequestedIs | Lib/HashMaps.h:301-309 | a request asks for 2 buckets if it is 0, for the least power of two that reaches it up to 2^31, and above for none |
| HistoryIndependence.FlowIsProbe | Lib/HashMaps.h:134-145 | a slot is displaced by p or more exactly when at least p keys overflow out of the slot p places before it |
| HistoryIndependence.FlowStep | Lib/HashMaps.h:109-152 | overflow obeys f(j) = max(0, f(j-1) + keys at home in j - 1), and a slot is used exactly when something arrives |
| HistoryIndependence.SameHomesSameLayout | Lib/HashMaps.h:109-152 | well-formed rings, of any keys, with equally many keys of each home slot agree in IsUsed and ProbeLength everywhere |
| HistoryIndependence.SameLayoutSameHomes | Lib/HashMaps.h:109-152 | rings that agree in IsUsed and ProbeLength everywhere hold equally many keys of each home slot |
| HistoryIndependence.SameKeysSameLayout | Lib/HashMaps.h:109-152 | in particular, well-formed rings with the same keys have the same layout |
| HistoryIndependence.SameKeysSameTable | Lib/HashMaps.h:91-263 | any two runs ending with the same keys at the same capacity leave the same layout |
| HistoryIndependence.AddThenRemove | Lib/HashMaps.h:91-263 | adding a key and removing it restores contents and layout |
| FreeLists.FreeListAscends | Lib/HeapAllocator.h:196-232 | a bucket's list is strictly address-ascending, so acyclic |
| FreeLists.LowestIsHead | Lib/HeapAllocator.h:156-160 | a listed block met at Offset is the head of its list |
| FreeLists.FreeingTile | Lib/HeapAllocator.h:175-232 | a freed block has one place in its list, by address, and other lists are unaffected |
| FreeLists.TakingTile | Lib/HeapAllocator.h:300-302 | taking the lowest free block of a bucket takes the head of its list only |
| HeapAllocator.RequestFits | Lib/HeapAllocator.h:288-299 | a request up to 2^23 with its header maps to a bucket in 1..15 whose size is exactly the rounded size and holds it |
| HeapAllocator.BucketIsSmallest | Lib/HeapAllocator.h:288-299 | a request gets the smallest bucket that holds it with its header |
| HeapAllocator.BucketSizes | Lib/HeapAllocator.h:45-70 | the buckets hold 512 bytes and twice as much each time, up to 2^23 |
| HeapAllocator.BucketExistsIff | Lib/HeapAllocator.h:292-300 | of the sizes accepted by the bucket branch, exactly those up to 2^23 index an existing bucket |
| HeapAllocator.OutOfMemoryIff | Lib/HeapAllocator.h:308-308 | the exhaustion test is right if and only if the subtraction does not wrap above the buffer start |
| HeapAllocator.GeneralPurposeAllocator.Create | Lib/HeapAllocator.h:259-278 | a fresh allocator, or all zero for a null or tiny buffer |
| HeapAllocator.GeneralPurposeAllocator.RemoveMemNode | Lib/HeapAllocator.h:101-123 | exactly that node leaves the list, links both ways hold, nothing outside the list is touched |
| HeapAllocator.GeneralPurposeAllocator.InsertMemNodeBefore | Lib/HeapAllocator.h:86-99 | the node enters at exactly that place, links both ways hold |
| HeapAllocator.GeneralPurposeAllocator.AppendMemNode | Lib/HeapAllocator.h:186-193 | the node becomes the end of the list |
| HeapAllocator.GeneralPurposeAllocator.MergeLowest | Lib/HeapAllocator.h:156-160 | the block at Offset leaves list and tiles and joins the region |
| HeapAllocator.GeneralPurposeAllocator.ListFirst | Lib/HeapAllocator.h:147-166 | a block freed onto an empty list is the whole list |
| HeapAllocator.GeneralPurposeAllocator.InsertMemNode | Lib/HeapAllocator.h:144-236 | in bucket mode the walk lists the block in address order and merges at most the head |
| HeapAllocator.GeneralPurposeAllocator.GeneralPurposeAlloc | Lib/HeapAllocator.h:280-341 | null exactly when the bucket has no free block and the region is too small, and then nothing changes; otherwise exactly one block becomes live, the lowest free one of the bucket or a new one below the region; tiling and lists stay sound |
| HeapAllocator.AllocatedOutcome | Lib/HeapAllocator.h:301-340 | the same, of the layout: which blocks are live, which are free and where the region ends after a request |
| HeapAllocator.GeneralPurposeAllocator.GeneralPurposeFree | Lib/HeapAllocator.h:388-429 | null and outside pointers change nothing; exactly the freed block is live no longer, joins the region if it lies at Offset and is free otherwise, where at most the lowest block of its bucket joins the region; tiling and lists stay sound |
| HeapAllocator.FreedOutcome | Lib/HeapAllocator.h:413-422 | the same, of the layout: which blocks are live, which are free and where the region ends after a free |
| HeapAllocator.GeneralPurposeAllocator.GeneralPurposeGetFreeMemory | Lib/HeapAllocator.h:431-448 | what it sums, plus the live blocks, is the size of the buffer |
| HeapAllocator.GeneralPurposeAllocator.GeneralPurposeClearAll | Lib/HeapAllocator.h:450-465 | the allocator is fresh again |
| HeapAllocator.Conservation | Lib/HeapAllocator.h:431-448 | in every sound state region, listed blocks and live blocks add up to the buffer |
| HeapAllocator.LiveBlocksApart | Lib/HeapAllocator.h:319-338 | live blocks lie in the buffer, hold what was asked for behind the header, and do not overlap |
| HeapAllocator.HandsOutFreshBlock | Lib/HeapAllocator.h:301-338 | a pointer handed out belongs to no block that was live, and no other live block changes |
| HeapAllocator.LastInFirstOut | Lib/HeapAllocator.h:413-417 | blocks of a fresh allocator freed in reverse order leave it fresh |
| QueueThreaded.Queue.Enqueue | Lib/QueueThreaded.h:22-35 | alone: appends unless Capacity - 1 values wait |
| QueueThreaded.Queue.Dequeue | Lib/QueueThreaded.h:37-51 | alone: removes and returns the oldest value unless none waits |
| QueueThreaded.ProducerKeepsInv | Lib/QueueThreaded.h:24-33 | every step of the producer keeps the last Capacity written values in memory and never passes First |
| QueueThreaded.RefusesIffFull | Lib/QueueThreaded.h:24-34 | in every safe run Enqueue gives up exactly when Capacity - 1 unclaimed values are present at its load of First |
| QueueThreaded.GivesUpIff | Lib/QueueThreaded.h:39-40 | in every safe run Dequeue gives up at its load of Last exactly when whole laps were published beyond its ticket, and if nobody claimed between its loads, exactly when nothing waits |
| QueueThreaded.ClaimsIff | Lib/QueueThreaded.h:43-50 | in every safe run the compare-exchange succeeds exactly when whole laps were claimed since the load of First, none in a timely step; otherwise the call gives up and changes nothing else |
| QueueThreaded.ConsumerKeepsInvIff | Lib/QueueThreaded.h:39-47 | a consumer's step keeps the invariant if and only if it does not claim from an empty queue |
| QueueThreaded.TimelyClaim | Lib/QueueThreaded.h:42-44 | a claim less than a lap after its load takes exactly the next ticket |
| QueueThreaded.ManyConsumers | Lib/QueueThreaded.h:37-50 | in every timely run tickets are claimed consecutively, each once, and First never passes Last |
| QueueThreaded.CopyIsPublished | Lib/QueueThreaded.h:46-46 | the copy is the value published under the ticket unless the producer has already written the slot again |
| QueueThreaded.StepRefinesFifo | Lib/QueueThreaded.h:22-51 | every timely step is invisible or one operation of an atomic FIFO |
| QueueThreaded.SingleConsumer | Lib/QueueThreaded.h:22-51 | with one consumer, in every interleaving, what was copied out is the beginning of what was published, in order |
| QueueThreaded.SafeIffNoClaimFromEmpty | Lib/QueueThreaded.h:39-44 | in every run First never passes Last if and only if no step claims from an empty queue |
| QueueThreaded.FullLapBreaksQueue | Lib/QueueThreaded.h:39-44 | for any two or more slots and consumers, a run in which First passes Last |
| QueueThreaded.AllRunsSafeIff | Lib/QueueThreaded.h:22-51 | First never passes Last in any run if and only if there is one slot or at most one consumer |
| QueueThreaded.AllCopiesRightIff | Lib/QueueThreaded.h:44-46 | in all timely runs every copy is the value published under its ticket if and only if there is one slot or at most one consumer |
| JobGroups.GroupBounds | Lib/Jobs.h:326-327 | without wrap the groups are non-empty and lie end to end |
| JobGroups.GroupUnique | Lib/Jobs.h:326-327 | no job index lies in two groups |
| JobGroups.GroupsCoverIff | Lib/Jobs.h:335-339 | the groups cover the job range if and only if the 32-bit sum does not wrap; if it wraps there are none |
| JobGroups.ShareIsEven | Lib/Jobs.h:329-329 | of m consecutive pushes each queue gets m / t or one more |
| JobGroups.ShareBalanced | Lib/Jobs.h:329-330 | shares differ by at most one; 255 * t pushes give no queue more than 255, and at least as many give none fewer |
| Jobs.JobSystem.PushBack | Lib/Jobs.h:35-39 | refused exactly when 255 jobs wait; otherwise each index of the job is pending once more |
| Jobs.JobSystem.JobsDispatch | Lib/Jobs.h:303-333 | from any state: the i32 counter grows by the group count, groups go to the queues in turn, a group is refused exactly when its queue is full by then, and each index of every other group is queued once more; with none refused each index below jobCount is |
| Jobs.OntoEmpty | Lib/Jobs.h:322-331 | onto empty queues exactly the groups beyond 255 per queue are refused, and with none refused queue lengths differ by at most one |
| Jobs.JobSystem.JobsExecute | Lib/Jobs.h:282-301 | one group of index 0 is announced and goes to the queue whose turn it is, and the turn passes on |
| Jobs.JobSystem.Work | Lib/Jobs.h:155-181 | alone, empties exactly the queues it visits, in turn and each from its head, runs each index as often as it was queued there, and takes each group off the counter |
| Jobs.VisitsAllIff | Lib/Jobs.h:158-179 | Work visits every queue if and only if the 32-bit queue number does not wrap or the number of queues divides 2^32 |
| Jobs.Perform | Lib/Jobs.h:166-176 | runs exactly the indices of the job, once each and in ascending order |
| Jobs.JobSystem.JobHandleWait | Lib/Jobs.h:341-363 | alone, does nothing unless the i32 counter is positive, else runs everything pending and takes it off the counter; stuck exactly when that leaves it positive |
| Jobs.JobSystem.DispatchAndWait | Lib/Jobs.h:303-363 | alone, every index below jobCount runs exactly once and the handle ends idle if and only if the groups fit the queues and are fewer than 2^31; with fewer that do not fit the wait does not end, and with more nothing is run |
| JobsMachine.ExecuteIsDispatch | Lib/Jobs.h:288-296 | JobsExecute submits what a dispatch of one job in groups of one submits |
| JobsMachine.StepKeepsInv | Lib/Jobs.h:155-333 | in every step each announced unfinished group stays in exactly one place, where it is to be found, counters count them, and each index has run as far as its group has got |
| JobsMachine.DealtInTurn | Lib/Jobs.h:329-329 | in every interleaving the k-th queue number taken is k modulo the number of queues, until the 32-bit ticket wraps |
| JobsMachine.QueuesBounded | Lib/Jobs.h:35-39 | in every run no queue holds more than 255 jobs |
| JobsProgress.ChangesIff | Lib/Jobs.h:155-333 | exactly these steps have an effect: an idle worker taking from a queue that holds a job, a running worker, a call that has not returned |
| JobsProgress.RefusesIffFull | Lib/Jobs.h:35-39 | a step refuses a group exactly when it pushes it onto a full queue |
| JobsProgress.StepUsesWork | Lib/Jobs.h:155-333 | every step with an effect, by whatever thread, that begins no call leaves less work, so no run without new calls goes on for ever |
| JobsProgress.StandsStillIff | Lib/Jobs.h:155-333 | with a worker, the machine stands still exactly when every call begun has returned, every queue is empty and every worker idle |
| JobsProgress.AllWorkGetsDone | Lib/Jobs.h:155-363 | from every state of every run with a worker some continuation finishes all calls made, leaves only groups already refused, and has run each index of a call with none refused once |
| JobsProgress.CanEmptyIff | Lib/Jobs.h:341-363 | with a worker, the groups of a handle can all be finished if and only if none of them was refused |
| JobsMachine.BusyIsRightIff | Lib/Jobs.h:114-119 | in every run a handle reads as it should if and only if nothing is unfinished on it or the low 32 bits of the number of unfinished groups are a positive i32 |
| JobsMachine.BusyIffOpen | Lib/Jobs.h:114-119 | while fewer than 2^31 groups are unfinished the counter is their number, so busy means exactly that one is left |
| JobsMachine.OpenWithinTotal | Lib/Jobs.h:311-314 | no more groups are unfinished than the calls made so far have announced |
| JobsMachine.AllRunsReadRightIff | Lib/Jobs.h:114-119 | in all states of all runs a handle reads as busy exactly when a group is unfinished on it, if and only if fewer than 2^31 groups are submitted on it |
| JobsMachine.WaitMeansDone | Lib/Jobs.h:341-363 | in every run, when the handle reads idle with fewer than 2^31 groups unfinished, every index of every call announced on it has run exactly once |
| JobsMachine.AllWaitsRightIff | Lib/Jobs.h:341-363 | in all runs an idle reading means that every index of every call made on the handle has run once, if and only if fewer than 2^31 groups are submitted on it |
| JobsMachine.NeverTwice | Lib/Jobs.h:162-178 | in no state has an index run twice, or before its call |
| JobsMachine.RefusedNeverIdle | Lib/Jobs.h:35-39 | after a refused push the group stays unfinished, so the handle stays busy in every later state with fewer than 2^31 unfinished |
| Debug.Profiler.Leave | Lib/Debug.h:124-140 | the anchors change as the machine's step says, also when anchor and parent coincide |
| Debug.Perform | Lib/Debug.h:110-140 | each call is one step of the machine |
| Debug.Replay | Lib/Debug.h:110-140 | a nested program leaves the anchors of the machine's run |
| Debug.StepKeepsInv | Lib/Debug.h:110-140 | at every moment recorded self time plus what open scopes owe is the time spent innermost, and the outermost open scope accounts for the inclusive time |
| Debug.StepKeepsSelfSum | Lib/Debug.h:133-134 | a step moves self time between anchors without creating any |
| Debug.RunWraps | Lib/Debug.h:126-137 | the 64-bit run is the unbounded run modulo 2^64 |
| Debug.ProfileIsMeter | Lib/Debug.h:110-141 | for every nested run that closes all scopes, recursion included, self, inclusive time and hits equal the tick-by-tick counts modulo 2^64, and self times sum to zero |
| BHeap.BHeap.PushMin | Lib/BHeap.h:38-76 | adds the item, keeps the multiset, and keeps a min heap when the orders agree; a full heap is unchanged |
| BHeap.BHeap.PushMax | Lib/BHeap.h:94-132 | the same for a max heap, with ties rising |
| BHeap.BHeap.PopMin | Lib/BHeap.h:78-92 | returns the root and leaves the specified remainder |
| BHeap.BHeap.PopMax | Lib/BHeap.h:134-153 | the same, and a null item from an empty heap |
| BHeap.BHeap.HeapifyMin | Lib/BHeap.h:165-189 | the loop sinks the item as the specification does |
| BHeap.BHeap.HeapifyMax | Lib/BHeap.h:191-215 | the same for a max heap |
| BHeap.UpOrders | Lib/BHeap.h:55-74 | sifting up repairs the one place that is out of order |
| BHeap.UpPath | Lib/BHeap.h:55-74 | whatever CompareFunc is, a pushed item stops at the first node whose parent it does not rise above, and only the items passed move, one node down |
| BHeap.RootAfterPush | Lib/BHeap.h:60-63 | of equal keys the item pushed last becomes the root of a max heap, and does not of a min heap |
| BHeap.DownOrders | Lib/BHeap.h:172-188 | sinking repairs the one place that is out of order |
| BHeap.PushKeepsHeapIff | Lib/BHeap.h:62-63 | pushing keeps every heap a heap if and only if CompareFunc agrees with the pointer order on distinct keys |
| BHeap.PoppedIsHeap | Lib/BHeap.h:78-153 | popping takes an extreme item and leaves a heap of the others |
| BHeap.RootAfterPop | Lib/BHeap.h:172-181 | the new root is the former last item unless a child is better, and of equally good children the left one |
| BHeap.DrainedIsSorted | Lib/BHeap.h:78-153 | popping until empty yields a sorted permutation |
| BHeap.Drain | Lib/BHeap.h:78-153 | the same, of the heap in its array |

## Left out

- HashMaps.StaticHashMap.Init: requires the table's part of the memory to be zeroed, because Init does not clear it.
- HashMaps.StaticHashMap.Add: on a table that is not full requires fewer than 65536 entries, because the probe length of one more need not fit `ProbeLength` (see `RobinHood.ProbesFitIff`).
- HashMaps.StaticHashMap.Replace: the same, since it begins with Add.
- HashMaps.StaticHashMap.Remove: excludes the searches that never end, which `HashMaps.SearchStopsIff` characterises.
- HashMaps.DHashMap.Resize: takes the table to be a member `Map` and the load factor to be `LOAD_FACTOR`, since the source names are undeclared there; allocator calls become fresh zeroed memory; requires at most 65536 entries, as for Add.
- HashMaps.StaticHashMap.Clear, HashMaps.StaticHashMap.Replace: model the evident intent of `map->Capacity` and of the assignment to a whole bucket.
- `AddResize` and `ReplaceResize`: they test `Capacity == MaxCount`, so they never grow a table with a load factor below 1.
- `StringHashMap`: its displacement swaps the probe length twice, so the invariant above does not hold there.
- Hash functions: a key's hash is an arbitrary function of the key.
- HeapAllocator.GeneralPurposeAllocator.GeneralPurposeAlloc: covers requests of at most 2^23 bytes with the header; larger ones index past the buckets or use the `Large` list.
- HeapAllocator.GeneralPurposeAllocator.GeneralPurposeFree: a pointer inside the used part must be a live one; freeing a block twice is not modelled.
- HeapAllocator.GeneralPurposeAllocator.Create: gives a valid allocator for buffers at address 2^23 or above, so that the exhaustion test cannot wrap (`HeapAllocator.OutOfMemoryIff`).
- Allocator: the `Large` list, `Realloc`, `Tail` and `Length`; callers do not write to block headers.
- QueueThreaded.RefusesIffFull, QueueThreaded.GivesUpIff, QueueThreaded.ClaimsIff: say nothing of states after First has passed Last, which `QueueThreaded.AllRunsSafeIff` characterises.
- QueueThreaded.CopyIsPublished: with several consumers a claimed slot can be rewritten before it is copied (`QueueThreaded.AllCopiesRightIff`); the condition says when it has not been.
- Queue slots are written and read in one step; the slot is exclusive in both cases. Weak memory is not modelled.
- JobsMachine.StepKeepsInv: that a queue is an atomic FIFO is an assumption, which `QueueThreaded.StepRefinesFifo` proves of timely runs only; pushes to one queue are one at a time, as the queue's single producer demands; workers pop any queue in any order, which includes the order of Work; tasks are opaque and submit nothing.
- Jobs.JobSystem.JobHandleWait: the yielding loop is not run, since alone it does not end when reached with a busy handle; requires at most 2^31 threads.
- Jobs.JobSystem.JobsDispatch: the number of refusals in closed form is stated when the queues are empty and no 32-bit sum or ticket wraps; models one handle; several are in `JobsMachine`.
- Job arguments, stack memory, semaphores, thread creation and affinity, shutdown.
- Debug.ProfileIsMeter: anchors 1 to 4095 are used for scopes, as `__COUNTER__ + 1` ensures; labels, printing and clock frequency are left out, and the clock does not go back.
- BHeap: key and user pointers are 64-bit addresses; `CompareFunc` is a pure function.
- `HandlesPool`, `SparseSet`, `Arena`, `Pool`, `DArray`, `String`, `Vec2i`, `Variant`, `BitMap`, `Events`, `LinkedArray`, `StaticArray`: plumbing, unfinished, or easy members.
