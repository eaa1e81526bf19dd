/** Progress of the job machine: which steps have an effect, that no run without new calls goes on for
    ever, and that it ends only when everything that was not refused has run. */
module JobsProgress {
  import opened Base
  import opened Sums
  import opened JobGroups
  import opened JobsMachine

  // ---------- Which steps have an effect ----------

  predicate Enabled(s: State, a: Action) {
    match a
    case Call(d) => d < |s.callers| && !s.callers[d].Returned?
    case Pop(w, q) => w < |s.workers| && s.workers[w].Idle? && q < |s.queues| && s.queues[q] != []
    case Advance(w) => w < |s.workers| && s.workers[w].Running?
  }

  /** Exactly these steps change the state: every idle worker can take from every queue that holds a job,
      every running worker and every call that has not returned can go on. */
  lemma ChangesIff(s: State, a: Action)
    requires WellTyped(s)
    ensures Step(s, a) != s <==> Enabled(s, a)
  {
    hide AddToCounter, Dispatch.Groups, Ids;
    var s' := Step(s, a);
    match a
    case Call(d) => assert Enabled(s, a) ==> s'.callers[d] != s.callers[d];
    case Pop(w, q) => assert Enabled(s, a) ==> s'.workers[w] != s.workers[w];
    case Advance(w) => assert Enabled(s, a) ==> s'.workers[w] != s.workers[w];
  }

  predicate Begins(s: State, a: Action) {
    a.Call? && a.d < |s.callers| && s.callers[a.d].NotCalled?
  }

  // ---------- Every step uses work up ----------

  /** Steps left to a call that submits `n` groups. */
  function CallerWork(caller: Caller, n: nat): nat {
    match caller
    case NotCalled => 0
    case Fetching(g) => if g < n then 2 * (n - g) + 1 else 1
    case Pushing(g, _) => if g < n then 2 * (n - g) else 0
    case Returned => 0
  }

  function WorkerWork(worker: Worker): nat {
    if worker.Running? && worker.j <= worker.job.end then worker.job.end - worker.j + 1 else 0
  }

  ghost function CallsLeft(s: State): seq<nat> {
    seq(|s.callers|, d requires 0 <= d < |s.callers| =>
      if d < |s.dispatches| then CallerWork(s.callers[d], s.dispatches[d].Groups()) else 0)
  }

  ghost function JobsLeft(s: State): seq<nat> {
    seq(|s.queues|, q requires 0 <= q < |s.queues| => |s.queues[q]|)
  }

  ghost function IndicesLeft(s: State): seq<nat> {
    seq(|s.workers|, w requires 0 <= w < |s.workers| => WorkerWork(s.workers[w]))
  }

  /** First the calls, then the queues, then the workers have less to do. */
  ghost predicate LessWork(s': State, s: State) {
    var c', c := Sum(CallsLeft(s')), Sum(CallsLeft(s));
    var j', j := Sum(JobsLeft(s')), Sum(JobsLeft(s));
    c' < c || (c' == c && (j' < j || (j' == j && Sum(IndicesLeft(s')) < Sum(IndicesLeft(s)))))
  }

  lemma CallUsesWork(s: State, d: nat)
    requires WellTyped(s) && d < |s.callers| && CallerOk(s, d) && Enabled(s, Call(d)) && !Begins(s, Call(d))
    ensures LessWork(Step(s, Call(d)), s)
  {
    hide AddToCounter, Dispatch.Groups, Ids, JobOf;
    var s' := Step(s, Call(d));
    var v := CallerWork(s'.callers[d], s.dispatches[d].Groups());
    assert CallsLeft(s') == CallsLeft(s)[d := v];
    SumUpdate(CallsLeft(s), d, v);
  }

  lemma PopUsesWork(s: State, w: nat, q: nat)
    requires WellTyped(s) && Enabled(s, Pop(w, q))
    ensures LessWork(Step(s, Pop(w, q)), s)
  {
    hide Dispatch.Groups, CallerWork, WorkerWork;
    var s' := Step(s, Pop(w, q));
    assert CallsLeft(s') == CallsLeft(s);
    assert JobsLeft(s') == JobsLeft(s)[q := |s.queues[q]| - 1];
    SumUpdate(JobsLeft(s), q, |s.queues[q]| - 1);
  }

  lemma AdvanceUsesWork(s: State, w: nat)
    requires WellTyped(s) && w < |s.workers| && WorkerOk(s, w) && Enabled(s, Advance(w))
    ensures LessWork(Step(s, Advance(w)), s)
  {
    hide AddToCounter, Dispatch.Groups, CallerWork, JobOf;
    var s' := Step(s, Advance(w));
    assert CallsLeft(s') == CallsLeft(s) && JobsLeft(s') == JobsLeft(s);
    assert IndicesLeft(s') == IndicesLeft(s)[w := WorkerWork(s'.workers[w])];
    SumUpdate(IndicesLeft(s), w, WorkerWork(s'.workers[w]));
  }

  /** Whatever thread takes it, every step that has an effect and begins no new call leaves less work: no
      run without new calls has infinitely many of them. */
  lemma StepUsesWork(s: State, a: Action)
    requires Inv(s) && Enabled(s, a) && !Begins(s, a)
    ensures LessWork(Step(s, a), s)
  {
    hide Step, LessWork, CallerOk, WorkerOk;
    match a
    case Call(d) => CallUsesWork(s, d);
    case Pop(w, q) => PopUsesWork(s, w, q);
    case Advance(w) => AdvanceUsesWork(s, w);
  }

  // ---------- Only a finished system stands still ----------

  ghost predicate Settled(s: State) {
    && (forall d :: 0 <= d < |s.callers| ==> s.callers[d].NotCalled? || s.callers[d].Returned?)
    && (forall q :: 0 <= q < |s.queues| ==> s.queues[q] == [])
    && (forall w :: 0 <= w < |s.workers| ==> s.workers[w].Idle?)
  }

  /** With at least one worker, the machine stands still only when every call begun has returned, every
      queue is empty and every worker idle. */
  lemma StandsStillIff(s: State)
    requires WellTyped(s) && |s.workers| > 0
    ensures (forall a :: Step(s, a) != s ==> Begins(s, a)) <==> Settled(s)
  {
    hide Step;
    if Settled(s) {
      forall a | Step(s, a) != s ensures Begins(s, a) {
        ChangesIff(s, a);
      }
    } else {
      var a := Choose(s);
      ChangesIff(s, a);
    }
  }

  /** A step that has an effect; a push only onto an empty queue. */
  lemma Choose(s: State) returns (a: Action)
    requires WellTyped(s) && |s.workers| > 0 && !Settled(s)
    ensures Enabled(s, a) && !Begins(s, a) && !Refuses(s, a)
  {
    if w: nat :| w < |s.workers| && s.workers[w].Running? {
      a := Advance(w);
    } else if q: nat :| q < |s.queues| && s.queues[q] != [] {
      a := Pop(0, q);
    } else {
      var d: nat :| d < |s.callers| && !s.callers[d].NotCalled? && !s.callers[d].Returned?;
      a := Call(d);
    }
  }

  /** The step pushes onto a queue that holds as many jobs as it can. */
  predicate Refuses(s: State, a: Action) {
    && a.Call? && a.d < |s.callers| && s.callers[a.d].Pushing?
    && s.callers[a.d].idx < |s.queues| && |s.queues[s.callers[a.d].idx]| >= QUEUE_LIMIT
  }

  predicate RefusedAt(s: State, id: GroupId) {
    id in s.open && s.open[id] == JobsMachine.Refused
  }

  /** A step refuses a group exactly when it pushes it onto a full queue, and then only that group. */
  lemma RefusesIffFull(s: State, a: Action, id: GroupId)
    requires Inv(s)
    ensures RefusedAt(Step(s, a), id) <==>
      RefusedAt(s, id) || (Refuses(s, a) && id == GroupId(a.d, s.callers[a.d].g))
  {
    hide AddToCounter, JobOf, CountersOk, AllRanOk, Dispatch.Groups;
    if RefusedAt(s, id) {
      RefusedStep(s, a, id);
    } else if a.Pop? && a.q < |s.queues| && s.queues[a.q] != [] {
      assert QueueOk(s, a.q, 0);
    }
  }

  /** In a settled state exactly the refused groups are unfinished, and of every other group of a call that
      was made each index has run once. */
  lemma SettledIsDone(s: State, id: GroupId, i: nat)
    requires Inv(s) && Settled(s)
    ensures id in s.open <==> RefusedAt(s, id)
    ensures id.d < |s.callers| && !s.callers[id.d].NotCalled? && !RefusedAt(s, id) ==>
      var x := s.dispatches[id.d];
      id.g < x.Groups() && InGroup(i, id.g, x.jobCount, x.groupSize) ==> s.ran[(id.d, i)] == 1
  {
    hide InGroup, Dispatch.Groups, JobOf, CountersOk;
    assert id in s.open ==> OpenOk(s, id);
    if id.d < |s.callers| {
      assert RanOk(s, id, i);
    }
  }

  // ---------- Everything gets done ----------

  /** From every state of a run with a worker there is a way to go on, without new calls and without
      refusing anything more, to a settled state. */
  lemma {:induction false} Finish(states: seq<State>, schedule: seq<Action>, s: State)
    returns (states': seq<State>, schedule': seq<Action>, s': State)
    requires IsRun(states, schedule) && states[|schedule|] == s && |s.workers| > 0
    ensures IsRun(states', schedule') && states <= states' && schedule <= schedule' && states'[|schedule'|] == s'
    ensures Inv(s) && Inv(s') && Settled(s') && s'.dispatches == s.dispatches
    ensures forall d :: 0 <= d < |s.callers| ==> (s'.callers[d].NotCalled? <==> s.callers[d].NotCalled?)
    ensures forall id :: RefusedAt(s', id) <==> RefusedAt(s, id)
    decreases Sum(CallsLeft(s)), Sum(JobsLeft(s)), Sum(IndicesLeft(s))
  {
    RunInv(states, schedule, |schedule|);
    states', schedule', s' := states, schedule, s;
    if !Settled(s) {
      var a := Choose(s);
      var t := Step(s, a);
      StepUsesWork(s, a);
      StepBasics(s, a);
      forall id ensures RefusedAt(t, id) <==> RefusedAt(s, id) {
        RefusesIffFull(s, a, id);
      }
      hide *;
      var more, more' := Then(states, schedule, a, t);
      states', schedule', s' := Finish(more, more', t);
    }
  }

  lemma StepBasics(s: State, a: Action)
    requires Inv(s) && !Begins(s, a)
    ensures var t := Step(s, a);
            && t.dispatches == s.dispatches && |t.callers| == |s.callers| && |t.workers| == |s.workers|
            && forall d :: 0 <= d < |s.callers| ==> (t.callers[d].NotCalled? <==> s.callers[d].NotCalled?)
  {
  }

  /** From every state of a run with a worker some continuation, without new calls, reaches a state in which
      every call made has returned, only groups already refused are unfinished, and each index of a call
      that had none refused has run once. */
  lemma AllWorkGetsDone(states: seq<State>, schedule: seq<Action>, s: State)
    returns (states': seq<State>, schedule': seq<Action>, s': State)
    requires IsRun(states, schedule) && states[|schedule|] == s && |s.workers| > 0
    ensures IsRun(states', schedule') && states <= states' && schedule <= schedule' && states'[|schedule'|] == s'
    ensures |s.callers| == |s'.callers| == |s.dispatches| && s'.dispatches == s.dispatches
    ensures forall d :: 0 <= d < |s.callers| ==>
      s'.callers[d] == if s.callers[d].NotCalled? then NotCalled else Returned
    ensures forall id :: id in s'.open <==> RefusedAt(s, id)
    ensures forall d, i: nat :: 0 <= d < |s.callers| && !s.callers[d].NotCalled? && NoneRefused(s, d) ==>
      s.dispatches[d].groupSize > 0 && i < s.dispatches[d].jobCount ==> s'.ran[(d, i)] == 1
  {
    states', schedule', s' := Finish(states, schedule, s);
    hide IsRun;
    forall id ensures id in s'.open <==> RefusedAt(s, id) {
      SettledIsDone(s', id, 0);
    }
    forall d, i: nat | 0 <= d < |s.callers| && !s.callers[d].NotCalled? && NoneRefused(s, d)
      ensures s.dispatches[d].groupSize > 0 && i < s.dispatches[d].jobCount ==> s'.ran[(d, i)] == 1
    {
      if s.dispatches[d].groupSize > 0 && i < s.dispatches[d].jobCount {
        IndexDone(s', d, i);
      }
    }
  }

  ghost predicate NoneRefused(s: State, d: nat) {
    forall g :: !RefusedAt(s, GroupId(d, g))
  }

  lemma IndexDone(s: State, d: nat, i: nat)
    requires Inv(s) && Settled(s) && d < |s.callers| && !s.callers[d].NotCalled? && NoneRefused(s, d)
    requires s.dispatches[d].groupSize > 0 && i < s.dispatches[d].jobCount
    ensures s.ran[(d, i)] == 1
  {
    hide CountersOk, PlacesOk, AllRanOk;
    var x := s.dispatches[d];
    IndexCovered(i, x.jobCount, x.groupSize);
    var g :| 0 <= g < GroupCount(x.jobCount, x.groupSize) && InGroup(i, g, x.jobCount, x.groupSize);
    SettledIsDone(s, GroupId(d, g), i);
  }

  ghost predicate CanEmpty(states: seq<State>, schedule: seq<Action>, h: nat) {
    exists states', schedule' ::
      && IsRun(states', schedule') && states <= states' && schedule <= schedule'
      && Open(states'[|schedule'|], h) == {}
  }

  /** With a worker, the groups of a handle can all be finished if and only if none of them was refused. */
  lemma CanEmptyIff(states: seq<State>, schedule: seq<Action>, s: State, h: nat)
    requires IsRun(states, schedule) && states[|schedule|] == s && |s.workers| > 0
    ensures CanEmpty(states, schedule, h) <==> forall id :: id in Open(s, h) ==> s.open[id] != JobsMachine.Refused
  {
    if forall id :: id in Open(s, h) ==> s.open[id] != JobsMachine.Refused {
      var states', schedule', s' := AllWorkGetsDone(states, schedule, s);
      assert Open(s', h) == {};
    } else {
      var id :| id in Open(s, h) && s.open[id] == JobsMachine.Refused;
      forall states', schedule' | IsRun(states', schedule') && states <= states' && schedule <= schedule'
        ensures Open(states'[|schedule'|], h) != {}
      {
        StaysOpen(states, schedule, states', schedule', id, h);
      }
    }
  }

  lemma StaysOpen(states: seq<State>, schedule: seq<Action>, states': seq<State>, schedule': seq<Action>,
                  id: GroupId, h: nat)
    requires IsRun(states, schedule) && IsRun(states', schedule') && states <= states' && schedule <= schedule'
    requires id in Open(states[|schedule|], h) && RefusedAt(states[|schedule|], id)
    ensures id in Open(states'[|schedule'|], h)
  {
    var n, m := |schedule|, |schedule'|;
    assert states'[n] == states[n];
    RefusedStays(states', schedule', n, m, id);
    RunInv(states', schedule', n);
    RunInv(states', schedule', m);
  }
}
