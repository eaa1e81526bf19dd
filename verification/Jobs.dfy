/** The job system of Lib/Jobs.h run by one thread: dispatching, working and waiting as loops over
    bounded queues. The interleaved system is in module JobsMachine. */
module Jobs {
  import opened Base
  import opened JobGroups
  import Ring

  datatype Job = Job(GroupId: nat, groupJobOffset: nat, groupJobEnd: nat)

  /** 1 if the job runs index `x`, else 0. */
  function Covers(job: Job, x: nat): nat {
    if job.groupJobOffset <= x < job.groupJobEnd then 1 else 0
  }

  /** The indices of a job, in the order they run. */
  ghost function JobIndices(job: Job): seq<nat> {
    seq(if job.groupJobOffset <= job.groupJobEnd then job.groupJobEnd - job.groupJobOffset else 0,
        k => job.groupJobOffset + k)
  }

  ghost function QueueIndices(queue: seq<Job>): seq<nat> {
    if queue == [] then [] else JobIndices(queue[0]) + QueueIndices(queue[1..])
  }

  ghost function QueuePending(queue: seq<Job>, x: nat): nat {
    if queue == [] then 0 else Covers(queue[0], x) + QueuePending(queue[1..], x)
  }

  /** How many queued jobs will run index `x`. */
  ghost function Pending(queues: seq<seq<Job>>, x: nat): nat {
    if queues == [] then 0 else QueuePending(queues[0], x) + Pending(queues[1..], x)
  }

  /** The number of groups still queued. */
  ghost function Load(queues: seq<seq<Job>>): nat {
    if queues == [] then 0 else |queues[0]| + Load(queues[1..])
  }

  lemma {:induction false} QueueAppend(queue: seq<Job>, job: Job, x: nat)
    ensures QueuePending(queue + [job], x) == QueuePending(queue, x) + Covers(job, x)
  {
    var queue' := queue + [job];
    if queue == [] {
      assert queue'[1..] == [];
    } else {
      QueueAppend(queue[1..], job, x);
      assert queue'[1..] == queue[1..] + [job];
    }
  }

  lemma {:induction false} PendingUpdate(queues: seq<seq<Job>>, q: nat, queue: seq<Job>, x: nat)
    requires q < |queues|
    ensures Pending(queues[q := queue], x) + QueuePending(queues[q], x) == Pending(queues, x) + QueuePending(queue, x)
    ensures Load(queues[q := queue]) + |queues[q]| == Load(queues) + |queue|
  {
    var queues' := queues[q := queue];
    if q > 0 {
      PendingUpdate(queues[1..], q - 1, queue, x);
      assert queues'[1..] == queues[1..][q - 1 := queue];
    } else {
      assert queues'[1..] == queues[1..];
    }
  }

  lemma PushPending(queues: seq<seq<Job>>, q: nat, job: Job)
    requires q < |queues|
    ensures var queues' := queues[q := queues[q] + [job]];
            && Load(queues') == Load(queues) + 1
            && forall x :: Pending(queues', x) == Pending(queues, x) + Covers(job, x)
  {
    PendingUpdate(queues, q, queues[q] + [job], 0);
    forall x ensures Pending(queues[q := queues[q] + [job]], x) == Pending(queues, x) + Covers(job, x) {
      PendingUpdate(queues, q, queues[q] + [job], x);
      QueueAppend(queues[q], job, x);
    }
  }

  /** Running what is queued in one queue. */
  lemma Emptied(queues: seq<seq<Job>>, q: nat, before: seq<nat>)
    requires q < |queues|
    ensures Load(queues[q := []]) + |queues[q]| == Load(queues)
    ensures forall x: nat :: multiset(before + QueueIndices(queues[q]))[x] + Pending(queues[q := []], x)
                          == multiset(before)[x] + Pending(queues, x)
  {
    PendingUpdate(queues, q, [], 0);
    forall x: nat ensures multiset(before + QueueIndices(queues[q]))[x] + Pending(queues[q := []], x)
                       == multiset(before)[x] + Pending(queues, x)
    {
      PendingUpdate(queues, q, [], x);
      IndicesPending(queues[q], x);
    }
  }

  lemma {:induction false} IndicesPending(queue: seq<Job>, x: nat)
    ensures multiset(QueueIndices(queue))[x] == QueuePending(queue, x)
  {
    if queue != [] {
      IndicesPending(queue[1..], x);
      IndicesCover(queue[0], x);
    }
  }

  lemma {:induction false} IndicesCover(job: Job, x: nat)
    ensures multiset(JobIndices(job))[x] == Covers(job, x)
    decreases job.groupJobEnd
  {
    if job.groupJobOffset < job.groupJobEnd {
      var less := job.(groupJobEnd := job.groupJobEnd - 1);
      IndicesCover(less, x);
      assert JobIndices(job) == JobIndices(less) + [less.groupJobEnd];
    }
  }

  ghost predicate AllEmpty(queues: seq<seq<Job>>) {
    forall q :: 0 <= q < |queues| ==> queues[q] == []
  }

  lemma {:induction false} NothingPending(queues: seq<seq<Job>>)
    ensures AllEmpty(queues) <==> Load(queues) == 0
    ensures AllEmpty(queues) ==> forall x :: Pending(queues, x) == 0
  {
    if queues != [] {
      NothingPending(queues[1..]);
      assert forall q :: 0 <= q < |queues[1..]| ==> queues[1..][q] == queues[q + 1];
      if Load(queues) == 0 {
        assert forall q :: 0 < q < |queues| ==> queues[q] == queues[1..][q - 1];
      }
    }
  }

  lemma {:induction false} LoadOfFull(queues: seq<seq<Job>>)
    requires forall q :: 0 <= q < |queues| ==> |queues[q]| == QUEUE_LIMIT
    ensures Load(queues) == QUEUE_LIMIT * |queues|
  {
    if queues != [] {
      assert forall q :: 0 <= q < |queues[1..]| ==> queues[1..][q] == queues[q + 1];
      LoadOfFull(queues[1..]);
    }
  }

  /** Every index below `n` exactly once and no other. */
  ghost predicate OnceBelow(n: nat, executed: seq<nat>) {
    forall x: nat :: multiset(executed)[x] == if x < n then 1 else 0
  }

  class JobSystem {
    const NumThreads: nat
    var Queues: seq<seq<Job>>
    var NextQueueIndex: nat
    var Counter: int  // of the one handle in use, an i32

    ghost predicate Valid()
      reads this
    {
      && 0 < NumThreads == |Queues| && NextQueueIndex < U32 && ToI32(Counter) == Counter
      && forall q :: 0 <= q < |Queues| ==> |Queues[q]| <= QUEUE_LIMIT
    }

    ghost predicate Quiet()
      reads this
    {
      Valid() && Counter == 0 && AllEmpty(Queues)
    }

    /** There are groups to queue, and no 32-bit sum wraps. */
    ghost predicate Regular(jobCount: nat, groupSize: nat)
      reads this
    {
      && Words(jobCount, groupSize) && jobCount + groupSize - 1 < U32
      && NextQueueIndex + GroupCount(jobCount, groupSize) < U32
    }

    /** The groups fit the queues when spread evenly. */
    ghost predicate Fits(jobCount: nat, groupSize: nat)
      requires groupSize > 0
      reads this
    {
      GroupCount(jobCount, groupSize) <= QUEUE_LIMIT * NumThreads
    }

    constructor (threads: nat)
      requires threads > 0
      ensures Quiet() && NumThreads == threads && NextQueueIndex == 0
    {
      NumThreads := threads;
      Queues := seq(threads, _ => []);
      NextQueueIndex := 0;
      Counter := 0;
    }

    method FetchQueueIndex() returns (idx: nat)
      requires Valid()
      modifies this`NextQueueIndex
      ensures Valid() && idx == old(NextQueueIndex) % NumThreads < NumThreads
      ensures NextQueueIndex == (old(NextQueueIndex) + 1) % U32
    {
      idx := NextQueueIndex % NumThreads;
      NextQueueIndex := (NextQueueIndex + 1) % U32;
    }

    /** A full queue refuses the job and the refusal goes unnoticed. */
    method PushBack(idx: nat, job: Job) returns (accepted: bool)
      requires Valid() && idx < NumThreads
      modifies this`Queues
      ensures Valid() && (accepted <==> |old(Queues)[idx]| < QUEUE_LIMIT)
      ensures Queues == if accepted then old(Queues)[idx := old(Queues)[idx] + [job]] else old(Queues)
      ensures accepted ==> forall x :: Pending(Queues, x) == Pending(old(Queues), x) + Covers(job, x)
      ensures accepted ==> Load(Queues) == old(Load(Queues)) + 1
    {
      hide Pending, Load;
      accepted := |Queues[idx]| < QUEUE_LIMIT;
      if accepted {
        PushPending(Queues, idx, job);
        Queues := Queues[idx := Queues[idx] + [job]];
      }
    }

    /** Pushes onto the queue whose turn it is. */
    method PushNext(job: Job) returns (accepted: bool)
      requires Valid()
      modifies this`Queues, this`NextQueueIndex
      ensures Valid() && NextQueueIndex == (old(NextQueueIndex) + 1) % U32
      ensures var idx := old(NextQueueIndex) % NumThreads;
              && idx < |Queues| == |old(Queues)| && (accepted <==> |old(Queues)[idx]| < QUEUE_LIMIT)
              && (forall q :: 0 <= q < |Queues| ==>
                    |Queues[q]| == |old(Queues)[q]| + if accepted && q == idx then 1 else 0)
      ensures Load(Queues) == Load(old(Queues)) + if accepted then 1 else 0
      ensures forall x :: Pending(Queues, x) == Pending(old(Queues), x) + if accepted then Covers(job, x) else 0
      ensures !accepted ==> Queues == old(Queues)
    {
      hide Pending, Load, Covers;
      var idx := FetchQueueIndex();
      accepted := PushBack(idx, job);
    }

    /** From any state: the groups go to the queues in turn, a group is refused exactly when its queue is
        full by then, and each index of every other group is queued once more. Onto empty queues exactly the
        groups beyond `QUEUE_LIMIT * NumThreads` are refused, and with none refused the load is even. */
    method JobsDispatch(jobCount: nat, groupSize: nat) returns (refused: nat)
      requires Valid() && jobCount < U32 && groupSize < U32
      modifies this
      ensures Valid()
      ensures jobCount == 0 || groupSize == 0 ==>
        refused == 0 && Queues == old(Queues) && Counter == old(Counter) && NextQueueIndex == old(NextQueueIndex)
      ensures jobCount > 0 && groupSize > 0 ==>
        && Counter == ToI32(old(Counter) + GroupCount(jobCount, groupSize))
        && Load(Queues) + refused == old(Load(Queues)) + GroupCount(jobCount, groupSize)
        && Dispatched(old(Queues), Queues, old(NextQueueIndex), NextQueueIndex, jobCount, groupSize)
      ensures refused == 0 && groupSize > 0 && jobCount + groupSize - 1 < U32 ==>
        forall x: nat :: Pending(Queues, x) == Pending(old(Queues), x) + if x < jobCount then 1 else 0
      ensures old(Quiet() && Regular(jobCount, groupSize)) ==>
        refused == if Fits(jobCount, groupSize) then 0 else GroupCount(jobCount, groupSize) - QUEUE_LIMIT * NumThreads
      ensures old(Quiet() && Regular(jobCount, groupSize)) && Fits(jobCount, groupSize) ==>
        && (forall x: nat :: Pending(Queues, x) == if x < jobCount then 1 else 0)
        && (forall q, q' :: 0 <= q < NumThreads && 0 <= q' < NumThreads ==> |Queues[q]| <= |Queues[q']| + 1)
    {
      hide Pending, Load, Dealt, Covers, GroupCount, ToI32, Number, TakesOne, Accepts, Visited, Room;
      refused := 0;
      if jobCount == 0 || groupSize == 0 {
        return;
      }
      var groupCount := GroupCount(jobCount, groupSize);
      ToI32Adds(Counter, groupCount);
      Counter := ToI32(Counter + groupCount);
      ghost var n0, start := NextQueueIndex, Queues;
      refused := PushGroups(jobCount, groupSize, groupCount);
      if refused == 0 && jobCount + groupSize - 1 < U32 {
        NoneMissing(start, n0, jobCount, groupSize);
      }
      if old(Quiet() && Regular(jobCount, groupSize)) {
        NothingPending(start);
        OntoEmpty(start, Queues, n0, groupCount);
      }
    }

    /** The loop of `JobsDispatch`. */
    method PushGroups(jobCount: nat, groupSize: nat, groupCount: nat) returns (refused: nat)
      requires Valid() && Words(jobCount, groupSize) && groupCount == GroupCount(jobCount, groupSize)
      modifies this`Queues, this`NextQueueIndex
      ensures Valid() && Load(Queues) + refused == Load(old(Queues)) + groupCount
      ensures Dispatched(old(Queues), Queues, old(NextQueueIndex), NextQueueIndex, jobCount, groupSize)
      ensures refused == 0 <==> forall g :: 0 <= g < groupCount ==> Accepts(old(Queues), old(NextQueueIndex), g)
    {
      hide Pending, Load, Dealt, Covers, GroupCount, GroupOffset, GroupEnd, Number, TakesOne, Accepts, Visited;
      refused := 0;
      ghost var n0, start := NextQueueIndex, Queues;
      DispatchStarts(start, n0, jobCount, groupSize);
      for g := 0 to groupCount
        invariant Valid() && NextQueueIndex == Number(n0, g) && Load(Queues) + refused == Load(start) + g
        invariant refused == 0 <==> forall g' :: 0 <= g' < g ==> Accepts(start, n0, g')
        invariant forall q :: 0 <= q < NumThreads ==> |Queues[q]| == Room(|start[q]| + Dealt(n0, g, q, NumThreads))
        invariant forall x: nat ::
          Pending(Queues, x) == Pending(start, x) + TakesOne(start, n0, g, jobCount, groupSize, x)
      {
        DispatchNext(start, n0, g, jobCount, groupSize);
        NumberNext(n0, g);
        var accepted := PushNext(Job(g, GroupOffset(g, groupSize), GroupEnd(g, jobCount, groupSize)));
        if !accepted {
          refused := refused + 1;
        }
      }
    }

    /** A single job: one group of one index. */
    method JobsExecute() returns (accepted: bool)
      requires Valid()
      modifies this
      ensures Valid() && Counter == ToI32(old(Counter) + 1) && NextQueueIndex == (old(NextQueueIndex) + 1) % U32
      ensures accepted <==> |old(Queues[NextQueueIndex % NumThreads])| < QUEUE_LIMIT
      ensures accepted ==> forall x :: Pending(Queues, x) == Pending(old(Queues), x) + if x == 0 then 1 else 0
      ensures !accepted ==> Queues == old(Queues)
      ensures forall q :: 0 <= q < |Queues| == |old(Queues)| ==>
        |Queues[q]| == |old(Queues)[q]| + if accepted && q == old(NextQueueIndex) % NumThreads then 1 else 0
    {
      ToI32Adds(Counter, 1);
      Counter := ToI32(Counter + 1);
      accepted := PushNext(Job(0, 0, 1));
    }

    /** Alone, `Work` empties exactly the queues it visits, in turn and each from its head, runs every index
        queued there as often as it is queued, and takes one off the counter for each group. */
    method Work(startingQueue: nat) returns (executed: seq<nat>)
      requires Valid() && startingQueue < U32
      modifies this`Queues, this`Counter
      ensures Valid() && forall q :: 0 <= q < NumThreads ==>
        Queues[q] == if Visits(startingQueue, NumThreads, q, NumThreads) then [] else old(Queues)[q]
      ensures forall x: nat :: multiset(executed)[x] + Pending(Queues, x) == Pending(old(Queues), x)
      ensures Counter == ToI32(old(Counter) + Load(Queues) - Load(old(Queues)))
      ensures executed == WorkOrder(old(Queues), startingQueue, NumThreads)
    {
      hide WorkOrder, QueueIndices, Pending, Load, Covers, Visits, Visited, Number, ToI32;
      executed := [];
      VisitsNext(startingQueue, 0, NumThreads);
      NumberNext(startingQueue, 0);
      WorkOrderNext(Queues, startingQueue, 0, startingQueue % NumThreads, Queues[startingQueue % NumThreads]);
      var queue := startingQueue;
      for i := 0 to NumThreads
        invariant Valid() && queue == Number(startingQueue, i)
        invariant forall x: nat :: multiset(executed)[x] + Pending(Queues, x) == Pending(old(Queues), x)
        invariant Counter == ToI32(old(Counter) + Load(Queues) - Load(old(Queues)))
        invariant executed == WorkOrder(old(Queues), startingQueue, i)
        invariant forall q :: 0 <= q < NumThreads ==>
          Queues[q] == if Visits(startingQueue, i, q, NumThreads) then [] else old(Queues)[q]
      {
        VisitsNext(startingQueue, i, NumThreads);
        NumberNext(startingQueue, i);
        ghost var q: nat, before: int := queue % NumThreads, Load(Queues);
        Emptied(Queues, q, executed);
        WorkOrderNext(old(Queues), startingQueue, i, q, Queues[q]);
        executed := EmptyQueue(queue % NumThreads, executed);
        ToI32Adds(old(Counter) + before - Load(old(Queues)), Load(Queues) - before);
        queue := (queue + 1) % U32;
      }
    }

    /** The inner loop of `Work`. */
    method EmptyQueue(q: nat, before: seq<nat>) returns (executed: seq<nat>)
      requires Valid() && q < NumThreads
      modifies this`Queues, this`Counter
      ensures Valid() && Queues == old(Queues)[q := []]
      ensures executed == before + QueueIndices(old(Queues)[q])
      ensures Counter == ToI32(old(Counter) - |old(Queues)[q]|)
    {
      hide Covers, ToI32, QueuePending, JobIndices;
      executed := before;
      while Queues[q] != []
        invariant Valid() && Queues == old(Queues)[q := Queues[q]]
        invariant executed + QueueIndices(Queues[q]) == before + QueueIndices(old(Queues)[q])
        invariant Counter == ToI32(old(Counter) + |Queues[q]| - |old(Queues)[q]|)
        decreases |Queues[q]|
      {
        var job := Queues[q][0];
        Queues := Queues[q := Queues[q][1..]];
        executed := Perform(job, executed);
        ToI32Adds(old(Counter) + |Queues[q]| + 1 - |old(Queues)[q]|, -1);
        Counter := ToI32(Counter - 1);
      }
    }

    method JobHandleIsBusy() returns (busy: bool)
      ensures busy <==> Counter > 0
    {
      return Counter > 0;
    }

    /** `stuck` says whether the caller reaches the yielding loop with a busy handle, which alone it never
        leaves. */
    method JobHandleWait() returns (executed: seq<nat>, stuck: bool)
      requires Valid() && 2 * NumThreads <= U32
      modifies this
      ensures Valid() && (stuck <==> Counter > 0)
      ensures old(Counter) <= 0 ==>
        executed == [] && Queues == old(Queues) && Counter == old(Counter) && NextQueueIndex == old(NextQueueIndex)
      ensures old(Counter) > 0 ==>
        && AllEmpty(Queues) && Counter == ToI32(old(Counter) - Load(old(Queues)))
        && NextQueueIndex == (old(NextQueueIndex) + 1) % U32
        && executed == WorkOrder(old(Queues), old(NextQueueIndex) % NumThreads, NumThreads)
        && forall x: nat :: multiset(executed)[x] == Pending(old(Queues), x)
    {
      executed := [];
      stuck := JobHandleIsBusy();
      if stuck {
        var idx := FetchQueueIndex();
        executed := Work(idx);
        VisitsAllIff(idx, NumThreads);
        NothingPending(Queues);
        stuck := JobHandleIsBusy();
      }
    }

    /** Dispatch and wait, alone. From 2^31 groups on the counter reads as negative and the wait returns
        before anything has run. Below that, the wait ends if and only if the groups fit the queues, and then
        every job index has run exactly once. */
    method DispatchAndWait(jobCount: nat, groupSize: nat) returns (executed: seq<nat>, stuck: bool)
      requires Quiet() && Regular(jobCount, groupSize) && 2 * NumThreads <= U32
      modifies this
      ensures Valid() && (stuck <==> !Fits(jobCount, groupSize) && GroupCount(jobCount, groupSize) < 0x8000_0000)
      ensures Quiet() && OnceBelow(jobCount, executed) <==>
        Fits(jobCount, groupSize) && GroupCount(jobCount, groupSize) < 0x8000_0000
      ensures GroupCount(jobCount, groupSize) >= 0x8000_0000 ==> executed == []
    {
      hide GroupCount, Pending, Load, ToI32;
      NothingPending(Queues);
      IndexCovered(0, jobCount, groupSize);
      ghost var groups := GroupCount(jobCount, groupSize);
      var refused := JobsDispatch(jobCount, groupSize);
      ToI32OfWord(groups);
      ToI32OfWord(refused);
      ToI32Adds(groups, (refused as int) - groups);
      executed, stuck := JobHandleWait();
    }
  }

  method Perform(job: Job, before: seq<nat>) returns (executed: seq<nat>)
    ensures executed == before + JobIndices(job)
    ensures forall x: nat :: multiset(executed)[x] == multiset(before)[x] + Covers(job, x)
  {
    executed := before;
    var j := job.groupJobOffset;
    while j < job.groupJobEnd
      invariant job.groupJobOffset <= j && (j <= job.groupJobEnd || j == job.groupJobOffset)
      invariant executed == before + JobIndices(job.(groupJobEnd := j))
    {
      executed := executed + [j];
      j := j + 1;
    }
    forall x: nat ensures multiset(executed)[x] == multiset(before)[x] + Covers(job, x) {
      IndicesCover(job, x);
    }
  }

  // ---------- Dealing groups to queues ----------

  /** How many of the first `m` tickets after `n0` fall on queue `q` of `t`, with the 32-bit wrap. */
  ghost function Dealt(n0: nat, m: nat, q: nat, t: nat): nat
    requires t > 0
  {
    if m == 0 then 0 else Dealt(n0, m - 1, q, t) + if Visited(n0, m - 1, t) == q then 1 else 0
  }

  /** How many of `m` jobs a queue takes. */
  function Room(m: nat): nat {
    if m <= QUEUE_LIMIT then m else QUEUE_LIMIT
  }

  /** The queue of group `g` has room when its turn comes. */
  ghost predicate Accepts(queues: seq<seq<Job>>, n0: nat, g: nat)
    requires |queues| > 0
  {
    var q := Visited(n0, g, |queues|); |queues[q]| + Dealt(n0, g, q, |queues|) < QUEUE_LIMIT
  }

  /** One of the first `m` groups holds index `x` and is accepted. */
  ghost predicate Takes(queues: seq<seq<Job>>, n0: nat, m: nat, jobCount: nat, groupSize: nat, x: nat)
    requires |queues| > 0
  {
    exists g: nat :: g < m && InGroup(x, g, jobCount, groupSize) && Accepts(queues, n0, g)
  }

  /** How often index `x` is queued by the first `m` groups. */
  ghost function TakesOne(queues: seq<seq<Job>>, n0: nat, m: nat, jobCount: nat, groupSize: nat, x: nat): nat
    requires |queues| > 0
  {
    if Takes(queues, n0, m, jobCount, groupSize, x) then 1 else 0
  }

  /** What a dispatch does to the queues. */
  ghost predicate Dispatched(queues: seq<seq<Job>>, queues': seq<seq<Job>>, n0: nat, n1: nat,
                             jobCount: nat, groupSize: nat)
    requires |queues| > 0 && groupSize > 0
  {
    var m := GroupCount(jobCount, groupSize);
    && |queues'| == |queues| && n1 == Number(n0, m)
    && (forall q :: 0 <= q < |queues| ==> |queues'[q]| == Room(|queues[q]| + Dealt(n0, m, q, |queues|)))
    && (forall x: nat ::
          Pending(queues', x) == Pending(queues, x) + TakesOne(queues, n0, m, jobCount, groupSize, x))
  }

  lemma DispatchStarts(queues: seq<seq<Job>>, n0: nat, jobCount: nat, groupSize: nat)
    requires |queues| > 0 && n0 < U32
    ensures Number(n0, 0) == n0 && forall q :: Dealt(n0, 0, q, |queues|) == 0
    ensures forall x: nat :: TakesOne(queues, n0, 0, jobCount, groupSize, x) == 0
  {
  }

  lemma DispatchNext(queues: seq<seq<Job>>, n0: nat, g: nat, jobCount: nat, groupSize: nat)
    requires |queues| > 0 && Words(jobCount, groupSize) && g < GroupCount(jobCount, groupSize)
    ensures var idx := Number(n0, g) % |queues|;
            && (Accepts(queues, n0, g) <==> |queues[idx]| + Dealt(n0, g, idx, |queues|) < QUEUE_LIMIT)
            && forall q: nat :: Dealt(n0, g + 1, q, |queues|) == Dealt(n0, g, q, |queues|) + if q == idx then 1 else 0
    ensures var job := Job(g, GroupOffset(g, groupSize), GroupEnd(g, jobCount, groupSize));
            forall x: nat :: TakesOne(queues, n0, g + 1, jobCount, groupSize, x)
                          == TakesOne(queues, n0, g, jobCount, groupSize, x)
                           + if Accepts(queues, n0, g) then Covers(job, x) else 0
  {
    hide Number, Dealt, GroupCount, GroupOffset, GroupEnd;
    DealtNext(n0, g, |queues|);
    GroupsCoverIff(jobCount, groupSize);
    forall x: nat, g': nat | g' < g && InGroup(x, g, jobCount, groupSize) && InGroup(x, g', jobCount, groupSize)
      ensures false
    {
      GroupUnique(x, g, g', jobCount, groupSize);
    }
  }

  lemma DealtNext(n0: nat, g: nat, t: nat)
    requires t > 0
    ensures forall q: nat :: Dealt(n0, g + 1, q, t) == Dealt(n0, g, q, t) + if q == Number(n0, g) % t then 1 else 0
  {
  }

  /** If no group is refused, every job index is queued. */
  lemma NoneMissing(queues: seq<seq<Job>>, n0: nat, jobCount: nat, groupSize: nat)
    requires |queues| > 0 && Words(jobCount, groupSize) && jobCount + groupSize - 1 < U32
    requires forall g :: 0 <= g < GroupCount(jobCount, groupSize) ==> Accepts(queues, n0, g)
    ensures forall x: nat ::
      TakesOne(queues, n0, GroupCount(jobCount, groupSize), jobCount, groupSize, x) == if x < jobCount then 1 else 0
  {
    hide GroupCount, Accepts;
    forall x: nat | x < jobCount
      ensures Takes(queues, n0, GroupCount(jobCount, groupSize), jobCount, groupSize, x)
    {
      IndexCovered(x, jobCount, groupSize);
      var g :| 0 <= g < GroupCount(jobCount, groupSize) && InGroup(x, g, jobCount, groupSize);
      assert Accepts(queues, n0, g);
    }
  }

  lemma VisitedSame(n0: nat, k: nat, t: nat)
    requires t > 0 && n0 + k < U32
    ensures Visited(n0, k, t) == (n0 + k) % t
  {
    DivModUnique(n0 + k, U32, 0, n0 + k);
  }

  lemma {:induction false} DealtIsShare(n0: nat, m: nat, q: nat, t: nat)
    requires t > 0 && n0 + m <= U32
    ensures Dealt(n0, m, q, t) == Share(n0, m, q, t)
  {
    if m > 0 {
      DealtIsShare(n0, m - 1, q, t);
      VisitedSame(n0, m - 1, t);
      hide Visited;
      var v := Visited(n0, m - 1, t);
      assert Share(n0, m, q, t) == Share(n0, m - 1, q, t) + if v == q then 1 else 0;
    }
  }

  /** Onto empty queues, and without a wrap of the tickets, the groups are spread evenly. */
  lemma OntoEmpty(queues: seq<seq<Job>>, queues': seq<seq<Job>>, n0: nat, m: nat)
    requires AllEmpty(queues) && |queues'| == |queues| > 0 && n0 + m < U32
    requires forall q :: 0 <= q < |queues| ==> |queues'[q]| == Room(|queues[q]| + Dealt(n0, m, q, |queues|))
    ensures m <= QUEUE_LIMIT * |queues| ==>
      && (forall g :: 0 <= g < m ==> Accepts(queues, n0, g))
      && (forall q, q' :: 0 <= q < |queues| && 0 <= q' < |queues| ==> |queues'[q]| <= |queues'[q']| + 1)
    ensures m >= QUEUE_LIMIT * |queues| ==> Load(queues') == QUEUE_LIMIT * |queues|
  {
    hide Load, Share, Dealt, Accepts, Visited;
    var t := |queues|;
    forall q, q' | 0 <= q < t && 0 <= q' < t ensures m <= QUEUE_LIMIT * t ==> |queues'[q]| <= |queues'[q']| + 1 {
      ShareBalanced(n0, m, q, q', t);
      DealtIsShare(n0, m, q, t);
      DealtIsShare(n0, m, q', t);
    }
    forall q | 0 <= q < t ensures m >= QUEUE_LIMIT * t ==> |queues'[q]| == QUEUE_LIMIT {
      ShareBalanced(n0, m, q, q, t);
      DealtIsShare(n0, m, q, t);
    }
    if m <= QUEUE_LIMIT * t {
      forall g | 0 <= g < m ensures Accepts(queues, n0, g) {
        EmptyAccepts(queues, n0, g);
      }
    }
    if m >= QUEUE_LIMIT * t {
      LoadOfFull(queues');
    }
  }

  lemma EmptyAccepts(queues: seq<seq<Job>>, n0: nat, g: nat)
    requires AllEmpty(queues) && |queues| > 0 && n0 + g + 1 < U32 && g < QUEUE_LIMIT * |queues|
    ensures Accepts(queues, n0, g)
  {
    var t := |queues|;
    var q := Visited(n0, g, t);
    ShareBalanced(n0, g + 1, q, q, t);
    DealtIsShare(n0, g + 1, q, t);
    DivModUnique(n0 + g, U32, 0, n0 + g);
  }

  /** The 32-bit queue number after `k` rounds. */
  function Number(start: nat, k: nat): nat {
    (start + k) % U32
  }

  function Visited(start: nat, k: nat, t: nat): nat
    requires t > 0
  {
    Number(start, k) % t
  }

  /** `Work` started at `start` has met queue `q` of `t` in its first `i` rounds. */
  ghost predicate Visits(start: nat, i: nat, q: nat, t: nat)
    requires t > 0
  {
    exists k: nat :: k < i && Visited(start, k, t) == q
  }

  /** The indices that the first `i` rounds of `Work` run, in order. */
  ghost function WorkOrder(queues: seq<seq<Job>>, start: nat, i: nat): seq<nat>
    requires |queues| > 0
  {
    if i == 0 then [] else
      var q := Visited(start, i - 1, |queues|);
      WorkOrder(queues, start, i - 1) + if Visits(start, i - 1, q, |queues|) then [] else QueueIndices(queues[q])
  }

  lemma WorkOrderNext(queues: seq<seq<Job>>, start: nat, i: nat, q: nat, queue: seq<Job>)
    requires 0 <= q < |queues| && q == Number(start, i) % |queues|
    requires queue == if Visits(start, i, q, |queues|) then [] else queues[q]
    ensures WorkOrder(queues, start, 0) == []
    ensures WorkOrder(queues, start, i + 1) == WorkOrder(queues, start, i) + QueueIndices(queue)
  {
    hide Number;
  }

  lemma NumberNext(start: nat, i: nat)
    requires start < U32
    ensures Number(start, 0) == start && Number(start, i + 1) == (Number(start, i) + 1) % U32
  {
  }

  lemma VisitsNext(start: nat, i: nat, t: nat)
    requires t > 0
    ensures Visited(start, i, t) == Number(start, i) % t
    ensures forall q: nat :: !Visits(start, 0, q, t)
    ensures forall q: nat :: Visits(start, i + 1, q, t) <==> Visits(start, i, q, t) || q == Visited(start, i, t)
  {
    hide Number;
  }

  /** `Work` meets every queue if and only if the 32-bit queue number does not wrap, or the number of
      queues divides 2^32. */
  lemma VisitsAllIff(start: nat, t: nat)
    requires start < U32 && 0 < t <= U32
    ensures (forall q: nat :: q < t ==> Visits(start, t, q, t)) <==> start + t <= U32 || U32 % t == 0
  {
    if start + t <= U32 || U32 % t == 0 {
      forall q: nat | q < t ensures Visits(start, t, q, t) {
        var k := VisitedAt(start, q, t);
      }
    } else {
      var r, e := U32 % t, start + t - U32;
      var q := if r < e then e else r;
      forall k: nat | k < t ensures Visited(start, k, t) != q {
        MissedBy(start, t, k, q);
      }
      assert !Visits(start, t, q, t);
    }
  }

  lemma VisitedAt(start: nat, q: nat, t: nat) returns (k: nat)
    requires start < U32 && q < t <= U32 && (start + t <= U32 || U32 % t == 0)
    ensures k < t && Visited(start, k, t) == q
  {
    k := Ring.Dist(start % t, q, t);
    ModAt(start, k, t);
    DivModUnique(k, t, 0, k);
    if start + k < U32 {
      DivModUnique(start + k, U32, 0, start + k);
    } else {
      DivModUnique(start + k, U32, 1, start + k - U32);
      ModBelow(start + k, U32, t);
    }
  }

  /** Subtracting a multiple of `t` keeps the remainder. */
  lemma ModBelow(x: nat, m: nat, t: nat)
    requires t > 0 && m <= x && m % t == 0
    ensures (x - m) % t == x % t
  {
    var d := x - m;
    assert m == t * (m / t);
    ModAt(d, m, t);
  }

  /** The numbers before the wrap are at most `t - e` below 2^32, those after it below `e`; none leaves the
      remainder `q`. */
  lemma MissedBy(start: nat, t: nat, k: nat, q: nat)
    requires start < U32 && k < t <= U32 < start + t && U32 % t > 0
    requires var e := start + t - U32; q == if U32 % t < e then e else U32 % t
    ensures Visited(start, k, t) != q
  {
    if start + k < U32 {
      DivModUnique(start + k, U32, 0, start + k);
      ModUnder(U32, U32 - start - k, t);
    } else {
      DivModUnique(start + k, U32, 1, start + k - U32);
      DivModUnique(start + k - U32, t, 0, start + k - U32);
    }
  }

  lemma ModUnder(m: nat, j: nat, t: nat)
    requires 0 < j < t <= m
    ensures (m - j) % t == if j <= m % t then m % t - j else m % t + t - j
  {
    var a, r := m / t, m % t;
    assert m == t * a + r;
    if j <= r {
      DivModUnique(m - j, t, a, r - j);
    } else {
      DivModUnique(m - j, t, a - 1, r + t - j);
    }
  }
}
