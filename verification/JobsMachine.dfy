/** The job system of Lib/Jobs.h as a machine: any number of dispatching calls and of workers (a waiting
    thread is one more worker) interleave atomic steps. That a queue is an atomic bounded FIFO is an
    assumption here: module QueueThreaded proves it of timely runs, and of a copy while its slot is not
    written again. A pop that fails is a step not taken. */
module JobsMachine {
  import opened Base
  import opened Sets
  import opened JobGroups

  /** `JobsDispatch(handle, jobCount, groupSize)`; `JobsExecute(handle)` is `Dispatch(handle, 1, 1)`. */
  datatype Dispatch = Dispatch(handle: nat, jobCount: nat, groupSize: nat) {
    function Groups(): nat {
      if jobCount == 0 || groupSize == 0 then 0 else GroupCount(jobCount, groupSize)
    }
  }

  datatype GroupId = GroupId(d: nat, g: nat)

  datatype Job = Job(id: GroupId, begin: nat, end: nat)

  datatype Caller = NotCalled | Fetching(g: nat) | Pushing(g: nat, idx: nat) | Returned

  datatype Worker = Idle | Running(job: Job, j: nat)

  /** Where an announced and unfinished group is. */
  datatype Place = Unpushed | Queued(q: nat, ticket: nat) | RunningBy(w: nat) | Refused

  /** Shared memory and program counters, then the history: `popped` counts the pops of each queue,
      `open` places every announced and unfinished group, `ran` holds the job indices run so far. */
  datatype State = State(
    dispatches: seq<Dispatch>, callers: seq<Caller>, workers: seq<Worker>, queues: seq<seq<Job>>,
    nextIndex: nat, counters: seq<int>,
    popped: seq<nat>, open: map<GroupId, Place>, ran: multiset<(nat, nat)>)

  datatype Action = Call(d: nat) | Pop(w: nat, q: nat) | Advance(w: nat)

  ghost function Ids(d: nat, n: nat): (ids: set<GroupId>)
    ensures |ids| == n && forall id :: id in ids <==> id.d == d && id.g < n
  {
    if n == 0 then {} else Ids(d, n - 1) + {GroupId(d, n - 1)}
  }

  function JobOf(id: GroupId, d: Dispatch): Job {
    Job(id, GroupOffset(id.g, d.groupSize), GroupEnd(id.g, d.jobCount, d.groupSize))
  }

  /** `JobsExecute` queues the one group of the one index 0. */
  lemma ExecuteIsDispatch(d: nat, handle: nat)
    ensures var x := Dispatch(handle, 1, 1);
            x.Groups() == 1 && JobOf(GroupId(d, 0), x) == Job(GroupId(d, 0), 0, 1)
  {
    DivModUnique(1, U32, 0, 1);
    DivModUnique(1, 1, 1, 0);
  }

  // ---------- Steps ----------

  ghost predicate WellTyped(s: State) {
    && |s.callers| == |s.dispatches| && |s.queues| == |s.popped| > 0
    && (forall d :: 0 <= d < |s.dispatches| ==> s.dispatches[d].handle < |s.counters|)
    && (forall w :: 0 <= w < |s.workers| && s.workers[w].Running? ==> s.workers[w].job.id.d < |s.dispatches|)
    && (forall d :: 0 <= d < |s.callers| && s.callers[d].Pushing? ==> s.callers[d].idx < |s.queues|)
  }

  ghost function AddToCounter(s: State, d: nat, k: int): (r: seq<int>)
    requires WellTyped(s) && d < |s.dispatches|
    ensures |r| == |s.counters|
  {
    var h := s.dispatches[d].handle;
    s.counters[h := ToI32(s.counters[h] + k)]
  }

  ghost function CallStep(s: State, d: nat): State
    requires WellTyped(s) && d < |s.callers|
  {
    var x := s.dispatches[d];
    match s.callers[d]
    case NotCalled =>
      if x.jobCount == 0 || x.groupSize == 0 then s.(callers := s.callers[d := Returned])
      else s.(callers := s.callers[d := Fetching(0)], counters := AddToCounter(s, d, x.Groups()),
              open := s.open + (map id | id in Ids(d, x.Groups()) :: Unpushed))
    case Fetching(g) =>
      if g < x.Groups() then
        s.(callers := s.callers[d := Pushing(g, s.nextIndex % |s.queues|)], nextIndex := (s.nextIndex + 1) % U32)
      else s.(callers := s.callers[d := Returned])
    case Pushing(g, idx) =>
      var id, t := GroupId(d, g), s.callers[d := Fetching(g + 1)];
      if |s.queues[idx]| < QUEUE_LIMIT then
        s.(callers := t, queues := s.queues[idx := s.queues[idx] + [JobOf(id, x)]],
           open := s.open[id := Queued(idx, s.popped[idx] + |s.queues[idx]|)])
      else s.(callers := t, open := s.open[id := Refused])
    case Returned => s
  }

  ghost function PopStep(s: State, w: nat, q: nat): State
    requires WellTyped(s)
  {
    if w < |s.workers| && q < |s.queues| && s.workers[w].Idle? && s.queues[q] != [] then
      var job := s.queues[q][0];
      s.(workers := s.workers[w := Running(job, job.begin)], queues := s.queues[q := s.queues[q][1..]],
         popped := s.popped[q := s.popped[q] + 1], open := s.open[job.id := RunningBy(w)])
    else s
  }

  ghost function AdvanceStep(s: State, w: nat): State
    requires WellTyped(s)
  {
    if w < |s.workers| && s.workers[w].Running? then
      var job, j := s.workers[w].job, s.workers[w].j;
      if j < job.end then
        s.(workers := s.workers[w := Running(job, j + 1)], ran := s.ran + multiset{(job.id.d, j)})
      else
        s.(workers := s.workers[w := Idle], counters := AddToCounter(s, job.id.d, -1), open := s.open - {job.id})
    else s
  }

  ghost function Step(s: State, a: Action): State
    requires WellTyped(s)
  {
    match a
    case Call(d) => if d < |s.callers| then CallStep(s, d) else s
    case Pop(w, q) => PopStep(s, w, q)
    case Advance(w) => AdvanceStep(s, w)
  }

  ghost predicate Start(s: State) {
    && WellTyped(s) && s.nextIndex == 0
    && (forall d :: 0 <= d < |s.callers| ==> s.callers[d].NotCalled?)
    && (forall w :: 0 <= w < |s.workers| ==> s.workers[w].Idle?)
    && (forall q :: 0 <= q < |s.queues| ==> s.queues[q] == [] && s.popped[q] == 0)
    && (forall h :: 0 <= h < |s.counters| ==> s.counters[h] == 0)
    && s.open == map[] && s.ran == multiset{}
  }

  /** The sizes of every call are such that its groups cover its job indices; see `GroupsCoverIff`. */
  ghost predicate Sizes(ds: seq<Dispatch>) {
    forall d :: 0 <= d < |ds| ==>
      ds[d].jobCount < U32 && ds[d].groupSize < U32 && ds[d].jobCount + ds[d].groupSize <= U32
  }

  // ---------- What every step keeps ----------

  ghost predicate QueueOk(s: State, q: nat, k: nat)
    requires q < |s.queues| == |s.popped| && k < |s.queues[q]|
  {
    var job := s.queues[q][k];
    && job.id in s.open && s.open[job.id] == Queued(q, s.popped[q] + k)
    && job.id.d < |s.dispatches| && job == JobOf(job.id, s.dispatches[job.id.d])
  }

  ghost predicate WorkerOk(s: State, w: nat)
    requires w < |s.workers|
  {
    s.workers[w].Running? ==>
      var job := s.workers[w].job;
      && job.id in s.open && s.open[job.id] == RunningBy(w)
      && job.id.d < |s.dispatches| && job == JobOf(job.id, s.dispatches[job.id.d])
      && job.begin <= s.workers[w].j <= job.end
  }

  ghost predicate CallerOk(s: State, d: nat)
    requires d < |s.callers| == |s.dispatches|
  {
    match s.callers[d]
    case NotCalled => forall g :: GroupId(d, g) !in s.open
    case Fetching(g) => forall g' :: g <= g' < s.dispatches[d].Groups() ==> UnpushedAt(s, d, g')
    case Pushing(g, idx) =>
      g < s.dispatches[d].Groups() && forall g' :: g <= g' < s.dispatches[d].Groups() ==> UnpushedAt(s, d, g')
    case Returned => true
  }

  ghost predicate UnpushedAt(s: State, d: nat, g: nat) {
    GroupId(d, g) in s.open && s.open[GroupId(d, g)] == Unpushed
  }

  ghost predicate OpenOk(s: State, id: GroupId)
    requires id in s.open
  {
    && id.d < |s.callers| == |s.dispatches| && id.g < s.dispatches[id.d].Groups()
    && match s.open[id]
       case Unpushed => StillToPush(s.callers[id.d], id.g)
       case Queued(q, ticket) => q < |s.popped| && QueuedAt(s, id, q, ticket - s.popped[q])
       case RunningBy(w) => w < |s.workers| && s.workers[w].Running? && s.workers[w].job.id == id
       case Refused => true
  }

  predicate StillToPush(caller: Caller, g: nat) {
    (caller.Fetching? || caller.Pushing?) && caller.g <= g
  }

  predicate QueuedAt(s: State, id: GroupId, q: nat, k: int) {
    q < |s.queues| && 0 <= k < |s.queues[q]| && s.queues[q][k].id == id
  }

  ghost function Open(s: State, h: nat): set<GroupId> {
    set id | id in s.open && id.d < |s.dispatches| && s.dispatches[id.d].handle == h
  }

  /** How often index `i` of group `id` has to have run. */
  ghost function Expected(s: State, id: GroupId, i: nat): nat
    requires id.d < |s.callers|
  {
    if s.callers[id.d].NotCalled? then 0
    else if id !in s.open then 1
    else match s.open[id]
      case RunningBy(w) => if w < |s.workers| && s.workers[w].Running? && i < s.workers[w].j then 1 else 0
      case _ => 0
  }

  ghost predicate RanOk(s: State, id: GroupId, i: nat)
    requires id.d < |s.callers| == |s.dispatches|
  {
    var x := s.dispatches[id.d];
    id.g < x.Groups() && InGroup(i, id.g, x.jobCount, x.groupSize) ==>
      s.ran[(id.d, i)] == Expected(s, id, i)
  }

  ghost predicate PlacesOk(s: State)
    requires |s.callers| == |s.dispatches| && |s.queues| == |s.popped|
  {
    && (forall q, k :: 0 <= q < |s.queues| && 0 <= k < |s.queues[q]| ==> QueueOk(s, q, k))
    && (forall w :: 0 <= w < |s.workers| ==> WorkerOk(s, w))
    && (forall d :: 0 <= d < |s.callers| ==> CallerOk(s, d))
    && (forall id :: id in s.open ==> OpenOk(s, id))
  }

  ghost predicate CountersOk(s: State) {
    forall h :: 0 <= h < |s.counters| ==> s.counters[h] == ToI32(|Open(s, h)|)
  }

  ghost predicate AllRanOk(s: State)
    requires |s.callers| == |s.dispatches|
  {
    forall id: GroupId, i: nat :: id.d < |s.callers| ==> RanOk(s, id, i)
  }

  /** Every announced and unfinished group is in exactly one place, a handle's counter is the number of
      them, and each job index has run exactly as far as its group has got. */
  ghost predicate Inv(s: State) {
    WellTyped(s) && Sizes(s.dispatches) && PlacesOk(s) && CountersOk(s) && AllRanOk(s)
  }

  /** Announcing adds unpushed groups of a call that had none. */
  lemma AnnounceKeepsPlaces(s: State, d: nat)
    requires WellTyped(s) && PlacesOk(s) && d < |s.callers| && s.callers[d].NotCalled?
    ensures WellTyped(CallStep(s, d)) && PlacesOk(CallStep(s, d))
  {
    hide ToI32, Expected, InGroup, Dispatch.Groups, Ids, AddToCounter;
    var s' := CallStep(s, d);
    assert CallerOk(s, d);
    AnnounceGrows(s, d);
    forall q, k | 0 <= q < |s'.queues| && 0 <= k < |s'.queues[q]| ensures QueueOk(s', q, k) {
      assert QueueOk(s, q, k);
    }
    forall w | 0 <= w < |s'.workers| ensures WorkerOk(s', w) {
      assert WorkerOk(s, w);
    }
    forall e | 0 <= e < |s'.callers| ensures CallerOk(s', e) {
      assert CallerOk(s, e);
      assert forall g :: UnpushedAt(s, e, g) ==> UnpushedAt(s', e, g);
    }
    AnnounceKeepsOpen(s, d);
  }

  lemma AnnounceKeepsOpen(s: State, d: nat)
    requires WellTyped(s) && PlacesOk(s) && d < |s.callers| && s.callers[d].NotCalled?
    ensures forall id :: id in CallStep(s, d).open ==> OpenOk(CallStep(s, d), id)
  {
    hide ToI32, Expected, InGroup, Dispatch.Groups, Ids, AddToCounter, JobOf;
    var s' := CallStep(s, d);
    assert CallerOk(s, d);
    AnnounceGrows(s, d);
    forall id | id in s'.open ensures OpenOk(s', id) {
      assert id in s.open ==> OpenOk(s, id);
    }
  }

  lemma AnnounceGrows(s: State, d: nat)
    requires WellTyped(s) && d < |s.callers| && s.callers[d].NotCalled? && CallerOk(s, d)
    ensures var s' := CallStep(s, d);
            && s'.dispatches == s.dispatches
            && (forall id :: id in s.open ==> id in s'.open && s'.open[id] == s.open[id] && id.d != d)
            && (forall id :: id in s'.open && id !in s.open ==>
                  id.d == d && id.g < s.dispatches[d].Groups() && s'.open[id] == Unpushed)
            && (forall g :: 0 <= g < s.dispatches[d].Groups() ==> UnpushedAt(s', d, g))
  {
    forall id | id in s.open ensures id.d != d {
      assert id == GroupId(id.d, id.g);
    }
  }

  lemma FetchKeepsPlaces(s: State, d: nat)
    requires WellTyped(s) && PlacesOk(s) && d < |s.callers| && (s.callers[d].Fetching? || s.callers[d].Returned?)
    ensures WellTyped(CallStep(s, d)) && PlacesOk(CallStep(s, d))
  {
    var s' := CallStep(s, d);
    assert CallerOk(s, d);
    assert 0 <= s.nextIndex % |s.queues| < |s.queues|;
    forall q, k | 0 <= q < |s'.queues| && 0 <= k < |s'.queues[q]| ensures QueueOk(s', q, k) {
      assert QueueOk(s, q, k);
    }
    forall w | 0 <= w < |s'.workers| ensures WorkerOk(s', w) {
      assert WorkerOk(s, w);
    }
    forall e | 0 <= e < |s'.callers| ensures CallerOk(s', e) {
      assert CallerOk(s, e);
      assert forall g :: UnpushedAt(s, e, g) ==> UnpushedAt(s', e, g);
    }
    forall id | id in s'.open ensures OpenOk(s', id) {
      assert OpenOk(s, id);
    }
  }

  lemma PushKeepsPlaces(s: State, d: nat)
    requires WellTyped(s) && PlacesOk(s) && d < |s.callers| && s.callers[d].Pushing?
    ensures WellTyped(CallStep(s, d)) && PlacesOk(CallStep(s, d))
  {
    hide ToI32, Expected, InGroup, Dispatch.Groups;
    var s', id0 := CallStep(s, d), GroupId(d, s.callers[d].g);
    assert CallerOk(s, d) && UnpushedAt(s, d, id0.g);
    forall q, k | 0 <= q < |s'.queues| && 0 <= k < |s'.queues[q]| ensures QueueOk(s', q, k) {
      assert k < |s.queues[q]| ==> QueueOk(s, q, k);
    }
    forall w | 0 <= w < |s'.workers| ensures WorkerOk(s', w) {
      assert WorkerOk(s, w);
    }
    forall e | 0 <= e < |s'.callers| ensures CallerOk(s', e) {
      assert CallerOk(s, e);
      assert forall g :: UnpushedAt(s, e, g) && GroupId(e, g) != id0 ==> UnpushedAt(s', e, g);
    }
    forall id | id in s'.open ensures OpenOk(s', id) {
      assert id in s.open ==> OpenOk(s, id);
    }
  }

  lemma PopKeepsPlaces(s: State, w: nat, q: nat)
    requires WellTyped(s) && PlacesOk(s) && Sizes(s.dispatches)
    ensures WellTyped(PopStep(s, w, q)) && PlacesOk(PopStep(s, w, q))
  {
    var s' := PopStep(s, w, q);
    if s' != s {
      var job := s.queues[q][0];
      assert QueueOk(s, q, 0) && OpenOk(s, job.id);
      JobNonEmpty(job.id, s.dispatches[job.id.d]);
      hide ToI32, Expected, InGroup, Dispatch.Groups, JobOf, Sizes;
      forall r, k | 0 <= r < |s'.queues| && 0 <= k < |s'.queues[r]| ensures QueueOk(s', r, k) {
        assert QueueOk(s, r, if r == q then k + 1 else k);
      }
      forall v | 0 <= v < |s'.workers| ensures WorkerOk(s', v) {
        assert WorkerOk(s, v);
      }
      forall e | 0 <= e < |s'.callers| ensures CallerOk(s', e) {
        assert CallerOk(s, e);
        assert forall g :: UnpushedAt(s, e, g) ==> UnpushedAt(s', e, g);
      }
      PopKeepsOpen(s, w, q);
    }
  }

  lemma PopKeepsOpen(s: State, w: nat, q: nat)
    requires WellTyped(s) && PlacesOk(s)
    ensures forall id :: id in PopStep(s, w, q).open ==> OpenOk(PopStep(s, w, q), id)
  {
    hide ToI32, Expected, InGroup, Dispatch.Groups, JobOf;
    var s' := PopStep(s, w, q);
    if s' != s {
      assert QueueOk(s, q, 0) && OpenOk(s, s.queues[q][0].id);
    }
    forall id | id in s'.open ensures OpenOk(s', id) {
      assert id in s.open ==> OpenOk(s, id);
    }
  }

  lemma JobNonEmpty(id: GroupId, x: Dispatch)
    requires id.g < x.Groups() && x.jobCount < U32 && x.groupSize < U32 && x.jobCount + x.groupSize <= U32
    ensures JobOf(id, x).begin <= JobOf(id, x).end
  {
    GroupBounds(id.g, x.jobCount, x.groupSize);
  }

  lemma AdvanceKeepsPlaces(s: State, w: nat)
    requires WellTyped(s) && PlacesOk(s)
    ensures WellTyped(AdvanceStep(s, w)) && PlacesOk(AdvanceStep(s, w))
  {
    hide ToI32, Expected, InGroup, Dispatch.Groups;
    var s' := AdvanceStep(s, w);
    if s' != s {
      assert WorkerOk(s, w);
      forall q, k | 0 <= q < |s'.queues| && 0 <= k < |s'.queues[q]| ensures QueueOk(s', q, k) {
        assert QueueOk(s, q, k);
      }
      forall v | 0 <= v < |s'.workers| ensures WorkerOk(s', v) {
        assert WorkerOk(s, v);
      }
      forall e | 0 <= e < |s'.callers| ensures CallerOk(s', e) {
        assert CallerOk(s, e);
        assert forall g :: UnpushedAt(s, e, g) ==> UnpushedAt(s', e, g);
      }
      forall id | id in s'.open ensures OpenOk(s', id) {
        assert OpenOk(s, id);
      }
    }
  }

  lemma StepKeepsPlaces(s: State, a: Action)
    requires WellTyped(s) && PlacesOk(s) && Sizes(s.dispatches)
    ensures WellTyped(Step(s, a)) && PlacesOk(Step(s, a)) && Step(s, a).dispatches == s.dispatches
  {
    hide PlacesOk;
    match a
    case Call(d) =>
      if d < |s.callers| {
        match s.callers[d]
        case NotCalled => AnnounceKeepsPlaces(s, d);
        case Pushing(_, _) => PushKeepsPlaces(s, d);
        case _ => FetchKeepsPlaces(s, d);
      }
    case Pop(w, q) => PopKeepsPlaces(s, w, q);
    case Advance(w) => AdvanceKeepsPlaces(s, w);
  }

  // ---------- The counters ----------

  lemma CallKeepsCounters(s: State, d: nat)
    requires WellTyped(s) && PlacesOk(s) && CountersOk(s) && d < |s.callers|
    ensures CountersOk(CallStep(s, d))
  {
    var s' := CallStep(s, d);
    assert CallerOk(s, d);
    if s.callers[d].NotCalled? && s.dispatches[d].jobCount > 0 && s.dispatches[d].groupSize > 0 {
      AnnounceKeepsCounters(s, d, s');
    } else {
      hide ToI32;
      assert s.callers[d].Pushing? ==> UnpushedAt(s, d, s.callers[d].g);
      assert s'.open.Keys == s.open.Keys;
      forall h | 0 <= h < |s'.counters| ensures s'.counters[h] == ToI32(|Open(s', h)|) {
        assert Open(s', h) == Open(s, h);
      }
    }
  }

  lemma AnnounceKeepsCounters(s: State, d: nat, s': State)
    requires WellTyped(s) && CountersOk(s) && d < |s.callers| && CallerOk(s, d)
    requires s.callers[d].NotCalled? && s' == CallStep(s, d)
    requires s.dispatches[d].jobCount > 0 && s.dispatches[d].groupSize > 0
    ensures CountersOk(s')
  {
    hide ToI32, Open, Ids, CallerOk;
    var n := s.dispatches[d].Groups();
    forall h | 0 <= h < |s'.counters| ensures s'.counters[h] == ToI32(|Open(s', h)|) {
      AnnounceOpens(s, d, s', h);
      ToI32Adds(|Open(s, h)|, n);
    }
  }

  lemma AnnounceOpens(s: State, d: nat, s': State, h: nat)
    requires WellTyped(s) && d < |s.callers| && CallerOk(s, d)
    requires s.callers[d].NotCalled? && s' == CallStep(s, d)
    requires s.dispatches[d].jobCount > 0 && s.dispatches[d].groupSize > 0
    ensures |Open(s', h)| == |Open(s, h)| + if s.dispatches[d].handle == h then s.dispatches[d].Groups() else 0
  {
    AnnounceGrows(s, d);
    hide CallStep, AddToCounter, WellTyped, CallerOk;
    var ids, mine := Ids(d, s.dispatches[d].Groups()), s.dispatches[d].handle == h;
    forall id ensures id in Open(s', h) <==> id in Open(s, h) || (mine && id in ids) {
      assert id in ids ==> UnpushedAt(s', d, id.g);
    }
    GrownBy(Open(s, h), Open(s', h), ids, mine);
  }

  lemma PopKeepsCounters(s: State, w: nat, q: nat)
    requires WellTyped(s) && PlacesOk(s) && CountersOk(s)
    ensures CountersOk(PopStep(s, w, q))
  {
    var s' := PopStep(s, w, q);
    if s' != s {
      assert QueueOk(s, q, 0);
      forall h | 0 <= h < |s'.counters| ensures s'.counters[h] == ToI32(|Open(s', h)|) {
        assert Open(s', h) == Open(s, h);
      }
    }
  }

  lemma AdvanceKeepsCounters(s: State, w: nat)
    requires WellTyped(s) && PlacesOk(s) && CountersOk(s)
    ensures CountersOk(AdvanceStep(s, w))
  {
    hide ToI32;
    var s' := AdvanceStep(s, w);
    if s' != s {
      assert WorkerOk(s, w);
      var id := s.workers[w].job.id;
      forall h | 0 <= h < |s'.counters| ensures s'.counters[h] == ToI32(|Open(s', h)|) {
        ClosingOne(s, s', id, h);
        ToI32Adds(|Open(s, h)|, -1);
      }
    }
  }

  /** Only the handle of a finished group has one group fewer. */
  lemma ClosingOne(s: State, s': State, id: GroupId, h: nat)
    requires s'.dispatches == s.dispatches && id in s.open && id.d < |s.dispatches|
    requires s'.open == s.open || s'.open == s.open - {id}
    ensures |Open(s', h)| == |Open(s, h)| - if id !in s'.open && s.dispatches[id.d].handle == h then 1 else 0
  {
    if id in s'.open || s.dispatches[id.d].handle != h {
      assert Open(s', h) == Open(s, h);
    } else {
      assert Open(s', h) == Open(s, h) - {id};
    }
  }

  // ---------- What has run ----------

  lemma CallKeepsRan(s: State, d: nat, id: GroupId, i: nat)
    requires WellTyped(s) && PlacesOk(s) && d < |s.callers| && id.d < |s.callers| && RanOk(s, id, i)
    ensures RanOk(CallStep(s, d), id, i)
  {
    assert CallerOk(s, d);
    if s.callers[d].Pushing? {
      assert UnpushedAt(s, d, s.callers[d].g);
    }
  }

  lemma PopKeepsRan(s: State, w: nat, q: nat, id: GroupId, i: nat)
    requires WellTyped(s) && PlacesOk(s) && id.d < |s.callers| && RanOk(s, id, i)
    ensures RanOk(PopStep(s, w, q), id, i)
  {
    var s' := PopStep(s, w, q);
    if s' != s {
      assert QueueOk(s, q, 0) && OpenOk(s, s.queues[q][0].id);
      assert id in s.open ==> OpenOk(s, id);
      assert CallerOk(s, s.queues[q][0].id.d);
    }
  }

  lemma AdvanceKeepsRan(s: State, w: nat, id: GroupId, i: nat)
    requires WellTyped(s) && PlacesOk(s) && Sizes(s.dispatches) && id.d < |s.callers| && RanOk(s, id, i)
    ensures RanOk(AdvanceStep(s, w), id, i)
  {
    hide ToI32, GroupCount, InGroup;
    var s', x := AdvanceStep(s, w), s.dispatches[id.d];
    if s' != s && id.g < x.Groups() && InGroup(i, id.g, x.jobCount, x.groupSize) {
      assert WorkerOk(s, w);
      var job, j := s.workers[w].job, s.workers[w].j;
      assert OpenOk(s, job.id) && CallerOk(s, job.id.d);
      assert id in s.open ==> OpenOk(s, id);
      RunsOnlyOwn(job, j, id, i, x);
    }
  }

  /** A running index lies in one group only, and before that group's end. */
  lemma RunsOnlyOwn(job: Job, j: nat, id: GroupId, i: nat, x: Dispatch)
    requires x.jobCount < U32 && x.groupSize < U32 && x.jobCount + x.groupSize <= U32
    requires id.g < x.Groups() && InGroup(i, id.g, x.jobCount, x.groupSize)
    ensures id.d == job.id.d && job == JobOf(job.id, x) && job.id.g < x.Groups() ==>
      (i == j && job.begin <= j < job.end ==> id == job.id) && (id == job.id ==> i < job.end)
  {
    if id.d == job.id.d && job == JobOf(job.id, x) && job.id.g < x.Groups() && i == j && job.begin <= j < job.end {
      GroupUnique(i, id.g, job.id.g, x.jobCount, x.groupSize);
    }
  }

  lemma StepKeepsInv(s: State, a: Action)
    requires Inv(s)
    ensures Inv(Step(s, a))
  {
    StepKeepsPlaces(s, a);
    var s' := Step(s, a);
    match a {
      case Call(d) => if d < |s.callers| { CallKeepsCounters(s, d); }
      case Pop(w, q) => PopKeepsCounters(s, w, q);
      case Advance(w) => AdvanceKeepsCounters(s, w);
    }
    forall id: GroupId, i: nat | id.d < |s'.callers| ensures RanOk(s', id, i) {
      assert RanOk(s, id, i);
      match a {
        case Call(d) => if d < |s.callers| { CallKeepsRan(s, d, id, i); }
        case Pop(w, q) => PopKeepsRan(s, w, q, id, i);
        case Advance(w) => AdvanceKeepsRan(s, w, id, i);
      }
    }
  }

  // ---------- Whole runs ----------

  /** The states of a run: any schedule of any threads. */
  ghost predicate IsRun(states: seq<State>, schedule: seq<Action>) {
    && |states| == |schedule| + 1 && Start(states[0]) && Sizes(states[0].dispatches)
    && forall i :: 0 <= i < |schedule| ==> WellTyped(states[i]) && states[i + 1] == Step(states[i], schedule[i])
  }

  lemma StartInv(s: State)
    requires Start(s) && Sizes(s.dispatches)
    ensures Inv(s)
  {
    forall h | 0 <= h < |s.counters| ensures s.counters[h] == ToI32(|Open(s, h)|) {
      assert Open(s, h) == {};
    }
  }

  lemma {:induction false} RunInv(states: seq<State>, schedule: seq<Action>, i: nat)
    requires IsRun(states, schedule) && i < |states|
    ensures Inv(states[i]) && states[i].dispatches == states[0].dispatches
    ensures |states[i].counters| == |states[0].counters|
  {
    if i == 0 {
      StartInv(states[0]);
    } else {
      RunInv(states, schedule, i - 1);
      StepKeepsInv(states[i - 1], schedule[i - 1]);
      StepKeepsPlaces(states[i - 1], schedule[i - 1]);
    }
  }

  /** How many groups those of the first `n` calls that have begun announced on handle `h`. */
  ghost function TotalGroups(s: State, h: nat, n: nat): nat
    requires n <= |s.dispatches| == |s.callers|
  {
    if n == 0 then 0 else TotalGroups(s, h, n - 1) + GroupsOf(s, h, n - 1)
  }

  ghost function GroupsOn(x: Dispatch, h: nat): nat {
    if x.handle == h then x.Groups() else 0
  }

  ghost function GroupsOf(s: State, h: nat, d: nat): nat
    requires d < |s.dispatches| == |s.callers|
  {
    if s.callers[d].NotCalled? then 0 else GroupsOn(s.dispatches[d], h)
  }

  ghost function OpenBelow(s: State, h: nat, n: nat): set<GroupId> {
    set id | id in Open(s, h) && id.d < n
  }

  lemma {:induction false} OpenBounded(s: State, h: nat, n: nat)
    requires WellTyped(s) && PlacesOk(s) && n <= |s.dispatches|
    ensures |OpenBelow(s, h, n)| <= TotalGroups(s, h, n)
  {
    if n == 0 {
      assert OpenBelow(s, h, 0) == {};
    } else {
      OpenBounded(s, h, n - 1);
      OpenOfCall(s, h, n - 1);
    }
  }

  lemma OpenOfCall(s: State, h: nat, d: nat)
    requires WellTyped(s) && PlacesOk(s) && d < |s.dispatches|
    ensures |OpenBelow(s, h, d + 1)| <= |OpenBelow(s, h, d)| + GroupsOf(s, h, d)
  {
    hide Dispatch.Groups;
    var more := Ids(d, GroupsOf(s, h, d));
    forall id | id in OpenBelow(s, h, d + 1) ensures id in OpenBelow(s, h, d) + more {
      assert OpenOk(s, id) && CallerOk(s, d) && id == GroupId(id.d, id.g);
    }
    SubsetCard(OpenBelow(s, h, d + 1), OpenBelow(s, h, d) + more);
    UnionCard(OpenBelow(s, h, d), more);
  }

  ghost predicate Busy(s: State, h: nat)
    requires h < |s.counters|
  {
    s.counters[h] > 0
  }

  /** The counter is the number of unfinished groups as an `i32`, so a handle reads as it should exactly
      when that number is 0 or its low 32 bits are those of a positive `i32`. */
  lemma BusyIsRightIff(states: seq<State>, schedule: seq<Action>, n: nat, h: nat)
    requires IsRun(states, schedule) && n < |states| && h < |states[n].counters|
    ensures var open := |Open(states[n], h)|;
            && states[n].counters[h] == ToI32(open)
            && ((Busy(states[n], h) <==> open != 0) <==> open == 0 || 0 < open % U32 < 0x8000_0000)
  {
    RunInv(states, schedule, n);
    hide *;
    ToI32Positive(|Open(states[n], h)|);
  }

  /** While fewer than 2^31 groups are unfinished on it, a handle reads as busy exactly when one of its
      groups is unfinished, and its counter is their number. */
  lemma BusyIffOpen(states: seq<State>, schedule: seq<Action>, n: nat, h: nat)
    requires IsRun(states, schedule) && n < |states| && h < |states[n].counters|
    requires |Open(states[n], h)| < 0x8000_0000
    ensures states[n].counters[h] == |Open(states[n], h)|
    ensures Busy(states[n], h) <==> Open(states[n], h) != {}
  {
    RunInv(states, schedule, n);
    ToI32Adds(|Open(states[n], h)|, 0);
  }

  /** No more groups are unfinished on a handle than the calls made on it so far have announced. */
  lemma OpenWithinTotal(states: seq<State>, schedule: seq<Action>, n: nat, h: nat)
    requires IsRun(states, schedule) && n < |states| && |states[n].dispatches| == |states[n].callers|
    ensures |Open(states[n], h)| <= TotalGroups(states[n], h, |states[n].dispatches|)
  {
    RunInv(states, schedule, n);
    var s := states[n];
    OpenBounded(s, h, |s.dispatches|);
    assert OpenBelow(s, h, |s.dispatches|) == Open(s, h);
  }

  /** How many groups the calls from number `m` below number `n` submit on handle `h`. */
  ghost function Submitted(ds: seq<Dispatch>, h: nat, m: nat, n: nat): nat
    requires m <= n <= |ds|
  {
    if m == n then 0 else Submitted(ds, h, m, n - 1) + GroupsOn(ds[n - 1], h)
  }

  lemma {:induction false} TotalWithinSubmitted(s: State, h: nat, n: nat)
    requires n <= |s.dispatches| == |s.callers|
    ensures TotalGroups(s, h, n) <= Submitted(s.dispatches, h, 0, n)
  {
    if n > 0 {
      TotalWithinSubmitted(s, h, n - 1);
    }
  }

  ghost predicate ReadsRight(states: seq<State>, h: nat) {
    forall i :: 0 <= i < |states| ==>
      h < |states[i].counters| && (Busy(states[i], h) <==> Open(states[i], h) != {})
  }

  ghost predicate AllRunsReadRight(s: State, h: nat) {
    forall states, schedule :: IsRun(states, schedule) && states[0] == s ==> ReadsRight(states, h)
  }

  /** In all states of all runs a handle reads as busy exactly when a group is unfinished on it, if and only
      if fewer than 2^31 groups are submitted on it. */
  lemma AllRunsReadRightIff(s: State, h: nat)
    requires Start(s) && Sizes(s.dispatches) && h < |s.counters|
    ensures AllRunsReadRight(s, h) <==> Submitted(s.dispatches, h, 0, |s.dispatches|) < 0x8000_0000
  {
    if Submitted(s.dispatches, h, 0, |s.dispatches|) < 0x8000_0000 {
      forall states: seq<State>, schedule | IsRun(states, schedule) && states[0] == s ensures ReadsRight(states, h) {
        RunReadsRight(states, schedule, h);
      }
    } else {
      var states, schedule, last := Overflow(s, h);
      assert !ReadsRight(states, h);
    }
  }

  lemma RunReadsRight(states: seq<State>, schedule: seq<Action>, h: nat)
    requires IsRun(states, schedule) && h < |states[0].counters|
    requires Submitted(states[0].dispatches, h, 0, |states[0].dispatches|) < 0x8000_0000
    ensures ReadsRight(states, h)
  {
    forall i: nat | i < |states|
      ensures h < |states[i].counters| && (Busy(states[i], h) <==> Open(states[i], h) != {})
    {
      RunInv(states, schedule, i);
      OpenWithinTotal(states, schedule, i, h);
      TotalWithinSubmitted(states[i], h, |states[i].dispatches|);
      BusyIffOpen(states, schedule, i, h);
    }
  }

  /** From 2^31 groups on, a run that only begins calls reaches a state that misreads. */
  lemma Overflow(s: State, h: nat) returns (states: seq<State>, schedule: seq<Action>, last: State)
    requires Start(s) && Sizes(s.dispatches) && h < |s.counters|
    requires Submitted(s.dispatches, h, 0, |s.dispatches|) >= 0x8000_0000
    ensures IsRun(states, schedule) && states[0] == s && states[|schedule|] == last && Inv(last)
    ensures h < |last.counters| && Open(last, h) != {} && !Busy(last, h)
    ensures forall id :: id in last.open ==> last.open[id] == Unpushed
  {
    hide *;
    var m, n := TooMany(s.dispatches, h, |s.dispatches|);
    states, schedule, last := CallsOnly(s, h, m, n);
    LastInv(states, schedule, s, last);
    BusyIsRightIff(states, schedule, |schedule|, h);
  }

  /** Some calls in a row submit at least 2^31 but fewer than 2^32 groups. */
  lemma {:induction false} TooMany(ds: seq<Dispatch>, h: nat, k: nat) returns (m: nat, n: nat)
    requires Sizes(ds) && k <= |ds| && Submitted(ds, h, 0, k) >= 0x8000_0000
    ensures m <= n <= |ds| && 0x8000_0000 <= Submitted(ds, h, m, n) < U32
  {
    FewGroups(ds[k - 1]);
    if Submitted(ds, h, 0, k - 1) >= 0x8000_0000 {
      m, n := TooMany(ds, h, k - 1);
    } else {
      m, n := if ds[k - 1].Groups() >= 0x8000_0000 then k - 1 else 0, k;
    }
  }

  lemma FewGroups(x: Dispatch)
    ensures x.Groups() < U32
  {
    if x.groupSize > 0 {
      QuotientBelow((x.jobCount + x.groupSize - 1) % U32, x.groupSize);
    }
  }

  /** The run that only begins the calls from number `m` below number `n`. */
  lemma {:induction false} CallsOnly(s: State, h: nat, m: nat, n: nat)
    returns (states: seq<State>, schedule: seq<Action>, last: State)
    requires Start(s) && Sizes(s.dispatches) && h < |s.counters| && m <= n <= |s.dispatches|
    ensures IsRun(states, schedule) && states[0] == s && states[|schedule|] == last
    ensures |last.callers| == |s.dispatches|
    ensures |Open(last, h)| == Submitted(s.dispatches, h, m, n)
    ensures forall d :: n <= d < |s.dispatches| ==> last.callers[d].NotCalled?
    ensures forall id :: id in last.open ==> last.open[id] == Unpushed
    decreases n
  {
    hide Inv, Start, Open, CallStep, Sizes, WellTyped, Step, GroupsOn, IsRun;
    if m == n {
      states, schedule, last := [s], [], s;
      StartAlone(s, h, n);
    } else {
      states, schedule, last := CallsOnly(s, h, m, n - 1);
      LastInv(states, schedule, s, last);
      BeginOpens(last, n - 1, h);
      states, schedule := Then(states, schedule, Call(n - 1), CallStep(last, n - 1));
      last := CallStep(last, n - 1);
    }
  }

  lemma StartAlone(s: State, h: nat, n: nat)
    requires Start(s) && Sizes(s.dispatches)
    ensures IsRun([s], []) && |Open(s, h)| == 0 && |s.callers| == |s.dispatches|
    ensures forall d :: n <= d < |s.dispatches| ==> s.callers[d].NotCalled?
    ensures s.open == map[]
  {
    assert Open(s, h) == {};
  }

  lemma LastInv(states: seq<State>, schedule: seq<Action>, s: State, last: State)
    requires IsRun(states, schedule) && states[0] == s && states[|schedule|] == last
    ensures |states| == |schedule| + 1 && Inv(last) && last.dispatches == s.dispatches
    ensures |last.counters| == |s.counters|
  {
    RunInv(states, schedule, |schedule|);
  }

  lemma BeginOpens(s: State, d: nat, h: nat)
    requires Inv(s) && d < |s.callers| && s.callers[d].NotCalled?
    ensures WellTyped(s) && Step(s, Call(d)) == CallStep(s, d)
    ensures var s' := CallStep(s, d);
            && |Open(s', h)| == |Open(s, h)| + GroupsOn(s.dispatches[d], h)
            && |s'.callers| == |s.callers|
            && (forall e :: 0 <= e < |s.callers| && e != d ==> s'.callers[e] == s.callers[e])
            && (forall id :: id in s'.open ==> if id in s.open then s'.open[id] == s.open[id]
                                               else s'.open[id] == Unpushed)
  {
    assert CallerOk(s, d);
    if s.dispatches[d].jobCount > 0 && s.dispatches[d].groupSize > 0 {
      AnnounceOpens(s, d, CallStep(s, d), h);
    } else {
      assert Open(CallStep(s, d), h) == Open(s, h);
    }
  }

  lemma Then(states: seq<State>, schedule: seq<Action>, a: Action, next: State)
    returns (states': seq<State>, schedule': seq<Action>)
    requires IsRun(states, schedule) && WellTyped(states[|schedule|]) && next == Step(states[|schedule|], a)
    ensures IsRun(states', schedule') && states' == states + [next] && schedule' == schedule + [a]
  {
    states', schedule' := states + [next], schedule + [a];
    forall i | 0 <= i < |schedule'|
      ensures WellTyped(states'[i]) && states'[i + 1] == Step(states'[i], schedule'[i])
    {
      assert i < |schedule| ==> states'[i] == states[i] && states'[i + 1] == states[i + 1];
    }
  }

  /** When `JobHandleWait` sees the handle idle, every job index of every call made on it so far has run
      exactly once, in whatever interleaving. */
  lemma WaitMeansDone(states: seq<State>, schedule: seq<Action>, n: nat, h: nat, d: nat, i: nat)
    requires IsRun(states, schedule) && n < |states| && h < |states[n].counters|
    requires |Open(states[n], h)| < 0x8000_0000 && !Busy(states[n], h)
    requires d < |states[n].dispatches| && states[n].dispatches[d].handle == h
    requires d < |states[n].callers| && !states[n].callers[d].NotCalled?
    requires i < states[n].dispatches[d].jobCount && states[n].dispatches[d].groupSize > 0
    ensures states[n].ran[(d, i)] == 1
  {
    BusyIffOpen(states, schedule, n, h);
    RunInv(states, schedule, n);
    var s, x := states[n], states[n].dispatches[d];
    IndexCovered(i, x.jobCount, x.groupSize);
    var g :| 0 <= g < GroupCount(x.jobCount, x.groupSize) && InGroup(i, g, x.jobCount, x.groupSize);
    var id := GroupId(d, g);
    assert RanOk(s, id, i);
    assert id !in Open(s, h);
  }

  /** If the handle reads as idle, index `i` of call `d` has run once. */
  ghost predicate DoneIfIdle(s: State, h: nat, d: nat, i: nat) {
    && h < |s.counters| && |s.callers| == |s.dispatches|
    && (d < |s.dispatches| && s.dispatches[d].handle == h && !s.callers[d].NotCalled? && !Busy(s, h) ==>
          i < s.dispatches[d].jobCount && s.dispatches[d].groupSize > 0 ==> s.ran[(d, i)] == 1)
  }

  ghost predicate AllWaitsRight(s: State, h: nat) {
    forall states, schedule, n: nat, d: nat, i: nat ::
      IsRun(states, schedule) && states[0] == s && n < |states| ==> DoneIfIdle(states[n], h, d, i)
  }

  /** In all runs a wait on the handle returns only after every index of every call made on it has run
      once, if and only if fewer than 2^31 groups are submitted on it. */
  lemma AllWaitsRightIff(s: State, h: nat)
    requires Start(s) && Sizes(s.dispatches) && h < |s.counters|
    ensures AllWaitsRight(s, h) <==> Submitted(s.dispatches, h, 0, |s.dispatches|) < 0x8000_0000
  {
    if Submitted(s.dispatches, h, 0, |s.dispatches|) < 0x8000_0000 {
      forall states: seq<State>, schedule, n: nat, d: nat, i: nat |
        IsRun(states, schedule) && states[0] == s && n < |states|
        ensures DoneIfIdle(states[n], h, d, i)
      {
        RunWaitsRight(states, schedule, n, h, d, i);
      }
    } else {
      var states, schedule, last := Overflow(s, h);
      var d, i := NotDone(last, h);
      assert !DoneIfIdle(states[|schedule|], h, d, i);
    }
  }

  lemma RunWaitsRight(states: seq<State>, schedule: seq<Action>, n: nat, h: nat, d: nat, i: nat)
    requires IsRun(states, schedule) && n < |states| && h < |states[0].counters|
    requires Submitted(states[0].dispatches, h, 0, |states[0].dispatches|) < 0x8000_0000
    ensures DoneIfIdle(states[n], h, d, i)
  {
    RunInv(states, schedule, n);
    var s := states[n];
    OpenWithinTotal(states, schedule, n, h);
    TotalWithinSubmitted(s, h, |s.dispatches|);
    if d < |s.dispatches| && s.dispatches[d].handle == h && !s.callers[d].NotCalled? && !Busy(s, h) {
      if i < s.dispatches[d].jobCount && s.dispatches[d].groupSize > 0 {
        WaitMeansDone(states, schedule, n, h, d, i);
      }
    }
  }

  /** An announced group that is not pushed has an index that has not run. */
  lemma NotDone(s: State, h: nat) returns (d: nat, i: nat)
    requires Inv(s) && Open(s, h) != {} && forall id :: id in s.open ==> s.open[id] == Unpushed
    ensures d < |s.dispatches| && s.dispatches[d].handle == h && !s.callers[d].NotCalled?
    ensures i < s.dispatches[d].jobCount && s.dispatches[d].groupSize > 0 && s.ran[(d, i)] == 0
  {
    var id :| id in Open(s, h);
    d := id.d;
    assert OpenOk(s, id) && CallerOk(s, d) && id == GroupId(d, id.g);
    var x := s.dispatches[d];
    GroupBounds(id.g, x.jobCount, x.groupSize);
    i := GroupOffset(id.g, x.groupSize);
    assert RanOk(s, id, i);
  }

  /** In no state has a job index run twice, and none runs before its call has announced it. */
  lemma NeverTwice(states: seq<State>, schedule: seq<Action>, n: nat, d: nat, i: nat)
    requires IsRun(states, schedule) && n < |states| && d < |states[n].dispatches| && d < |states[n].callers|
    requires i < states[n].dispatches[d].jobCount && states[n].dispatches[d].groupSize > 0
    ensures states[n].ran[(d, i)] <= if states[n].callers[d].NotCalled? then 0 else 1
  {
    RunInv(states, schedule, n);
    var s, x := states[n], states[n].dispatches[d];
    IndexCovered(i, x.jobCount, x.groupSize);
    var g :| 0 <= g < GroupCount(x.jobCount, x.groupSize) && InGroup(i, g, x.jobCount, x.groupSize);
    assert RanOk(s, GroupId(d, g), i);
  }

  /** A refused group stays announced for ever. */
  lemma {:induction false} RefusedStays(states: seq<State>, schedule: seq<Action>, n: nat, m: nat, id: GroupId)
    requires IsRun(states, schedule) && n <= m < |states|
    requires id in states[n].open && states[n].open[id] == Refused
    ensures id in states[m].open && states[m].open[id] == Refused
    decreases m
  {
    if n < m {
      RefusedStays(states, schedule, n, m - 1, id);
      RunInv(states, schedule, m - 1);
      RefusedStep(states[m - 1], schedule[m - 1], id);
    }
  }

  lemma RefusedStep(s: State, a: Action, id: GroupId)
    requires Inv(s) && id in s.open && s.open[id] == Refused
    ensures id in Step(s, a).open && Step(s, a).open[id] == Refused
  {
    match a
    case Call(d) =>
      if d < |s.callers| {
        assert CallerOk(s, d);
        if s.callers[d].Pushing? {
          assert UnpushedAt(s, d, s.callers[d].g);
        }
      }
    case Pop(w, q) =>
      if q < |s.queues| && s.queues[q] != [] {
        assert QueueOk(s, q, 0);
      }
    case Advance(w) =>
      if w < |s.workers| {
        assert WorkerOk(s, w);
      }
  }

  /** So once a full queue has refused a group, its handle always has one that is unfinished, and reads as
      busy in every later state in which fewer than 2^31 are: waiting on it does not end. */
  lemma RefusedNeverIdle(states: seq<State>, schedule: seq<Action>, n: nat, m: nat, id: GroupId)
    requires IsRun(states, schedule) && n <= m < |states|
    requires id in states[n].open && states[n].open[id] == Refused && id.d < |states[0].dispatches|
    ensures var h := states[0].dispatches[id.d].handle;
            && h < |states[m].counters| && id in Open(states[m], h)
            && (|Open(states[m], h)| < 0x8000_0000 ==> Busy(states[m], h))
  {
    RefusedStays(states, schedule, n, m, id);
    RunInv(states, schedule, m);
    var h := states[0].dispatches[id.d].handle;
    assert id in Open(states[m], h);
    if |Open(states[m], h)| < 0x8000_0000 {
      BusyIffOpen(states, schedule, m, h);
    }
  }

  // ---------- Dealing groups to queues ----------

  /** The step takes a queue number for its next group. */
  ghost predicate Fetches(s: State, a: Action) {
    && a.Call? && a.d < |s.callers| == |s.dispatches| && s.callers[a.d].Fetching?
    && s.callers[a.d].g < s.dispatches[a.d].Groups()
  }

  /** How many queue numbers the first `n` steps took. */
  ghost function FetchCount(states: seq<State>, schedule: seq<Action>, n: nat): nat
    requires n <= |schedule| < |states|
  {
    if n == 0 then 0
    else FetchCount(states, schedule, n - 1) + if Fetches(states[n - 1], schedule[n - 1]) then 1 else 0
  }

  lemma {:induction false} NextIndexCounts(states: seq<State>, schedule: seq<Action>, n: nat)
    requires IsRun(states, schedule) && n <= |schedule|
    ensures states[n].nextIndex == Ticket(FetchCount(states, schedule, n))
    ensures |states[n].queues| == |states[0].queues|
  {
    hide *;
    RunStep(states, schedule, n);
    if n == 0 {
      FetchCountNext(states, schedule, 0);
    } else {
      NextIndexCounts(states, schedule, n - 1);
      RunStep(states, schedule, n - 1);
      var s, a, k := states[n - 1], schedule[n - 1], FetchCount(states, schedule, n - 1);
      FetchCountNext(states, schedule, n);
      NextIndexStep(s, a);
      TicketNext(k);
    }
  }

  lemma FetchCountNext(states: seq<State>, schedule: seq<Action>, n: nat)
    requires n <= |schedule| < |states|
    ensures FetchCount(states, schedule, n) == if n == 0 then 0
      else FetchCount(states, schedule, n - 1) + if Fetches(states[n - 1], schedule[n - 1]) then 1 else 0
  {
  }

  lemma RunStep(states: seq<State>, schedule: seq<Action>, n: nat)
    requires IsRun(states, schedule) && n <= |schedule|
    ensures |states| == |schedule| + 1 && states[0].nextIndex == Ticket(0)
    ensures n < |schedule| ==> WellTyped(states[n]) && states[n + 1] == Step(states[n], schedule[n])
  {
  }

  lemma NextIndexStep(s: State, a: Action)
    requires WellTyped(s)
    ensures Step(s, a).nextIndex == if Fetches(s, a) then Ticket(s.nextIndex + 1) else s.nextIndex
    ensures |Step(s, a).queues| == |s.queues|
  {
    hide Dispatch.Groups, AddToCounter, Ids, JobOf, ToI32;
  }

  /** The 32-bit value of ticket `k`. */
  function Ticket(k: nat): nat {
    k % U32
  }

  lemma TicketNext(k: nat)
    ensures Ticket(Ticket(k) + 1) == Ticket(k + 1)
  {
  }

  /** In every interleaving the `k`-th queue number taken, whoever takes it, is `k` modulo the number of
      queues, until the 32-bit ticket wraps. */
  lemma DealtInTurn(states: seq<State>, schedule: seq<Action>, n: nat)
    requires IsRun(states, schedule) && n < |schedule| && Fetches(states[n], schedule[n])
    ensures var k, d := FetchCount(states, schedule, n), schedule[n].d;
            && |states[0].queues| > 0 && d < |states[n + 1].callers|
            && states[n + 1].callers[d] == Pushing(states[n].callers[d].g, Ticket(k) % |states[0].queues|)
  {
    NextIndexCounts(states, schedule, n);
  }

  /** No queue ever holds more jobs than its ring has room for. */
  lemma {:induction false} QueuesBounded(states: seq<State>, schedule: seq<Action>, n: nat)
    requires IsRun(states, schedule) && n < |states|
    ensures forall q :: 0 <= q < |states[n].queues| ==> |states[n].queues[q]| <= QUEUE_LIMIT
  {
    if n > 0 {
      QueuesBounded(states, schedule, n - 1);
      RunStep(states, schedule, n - 1);
      hide IsRun, Step, WellTyped;
      BoundedStep(states[n - 1], schedule[n - 1]);
    }
  }

  lemma BoundedStep(s: State, a: Action)
    requires WellTyped(s) && forall q :: 0 <= q < |s.queues| ==> |s.queues[q]| <= QUEUE_LIMIT
    ensures forall q :: 0 <= q < |Step(s, a).queues| ==> |Step(s, a).queues[q]| <= QUEUE_LIMIT
  {
    hide Dispatch.Groups, AddToCounter, Ids, JobOf, ToI32;
  }
}
