/** Profiler scopes (Lib/Debug.h): the bookkeeping done on entering and leaving a scope, in wrapping
    64-bit arithmetic, against the times spent in each anchor counted tick by tick. */
module Debug {
  import opened Base

  const ANCHORS: nat := 4096

  datatype ProfileAnchor = ProfileAnchor(ElapsedSelf: int, ElapsedChildren: int, HitCount: int)

  datatype ProfilerScope = ProfilerScope(Start: int, OldElapsedChildren: int, AnchorIndex: nat, ParentIndex: nat)

  function U64Of(x: int): int {
    x % U64
  }

  class Profiler {
    const Anchors: array<ProfileAnchor>
    var ParentIndex: nat

    ghost predicate Valid()
      reads this
    {
      Anchors.Length == ANCHORS && ParentIndex < ANCHORS
    }

    constructor ()
      ensures Valid() && ParentIndex == 0 && fresh(Anchors)
      ensures Anchors[..] == seq(ANCHORS, _ => ProfileAnchor(0, 0, 0))
    {
      Anchors := new ProfileAnchor[ANCHORS](_ => ProfileAnchor(0, 0, 0));
      ParentIndex := 0;
    }

    /** The constructor of a scope. */
    method Enter(anchorIndex: nat, cpuTime: int) returns (scope: ProfilerScope)
      requires Valid() && anchorIndex < ANCHORS
      modifies this`ParentIndex
      ensures Valid() && ParentIndex == anchorIndex
      ensures scope == ProfilerScope(cpuTime, Anchors[anchorIndex].ElapsedChildren, anchorIndex, old(ParentIndex))
    {
      var parentIndex := ParentIndex;
      var oldElapsedChildren := Anchors[anchorIndex].ElapsedChildren;
      ParentIndex := anchorIndex;
      scope := ProfilerScope(cpuTime, oldElapsedChildren, anchorIndex, parentIndex);
    }

    /** The destructor of a scope. */
    method Leave(scope: ProfilerScope, cpuTime: int)
      requires Valid() && scope.AnchorIndex < ANCHORS && scope.ParentIndex < ANCHORS
      modifies this`ParentIndex, Anchors
      ensures Valid() && ParentIndex == scope.ParentIndex
      ensures Anchors[..] == Left(old(Anchors[..]), scope, U64Of(cpuTime - scope.Start), U64Of)
    {
      var elapsed := U64Of(cpuTime - scope.Start);
      ParentIndex := scope.ParentIndex;
      var p, a := ParentIndex, scope.AnchorIndex;
      Anchors[p] := Anchors[p].(ElapsedSelf := U64Of(Anchors[p].ElapsedSelf - elapsed));
      Anchors[a] := Anchors[a].(ElapsedSelf := U64Of(Anchors[a].ElapsedSelf + elapsed));
      Anchors[a] := Anchors[a].(ElapsedChildren := U64Of(scope.OldElapsedChildren + elapsed));
      Anchors[a] := Anchors[a].(HitCount := U64Of(Anchors[a].HitCount + 1));
    }
  }

  /** One event of a program, with `stack` holding the open scopes. */
  method Perform(profiler: Profiler, e: Event, stack: seq<ProfilerScope>, clock: nat)
    returns (stack': seq<ProfilerScope>, clock': nat)
    requires profiler.Valid() && Proper(State(profiler.Anchors[..], profiler.ParentIndex, stack, clock))
    requires Enabled(State(profiler.Anchors[..], profiler.ParentIndex, stack, clock), e)
    modifies profiler`ParentIndex, profiler.Anchors
    ensures profiler.Valid()
    ensures State(profiler.Anchors[..], profiler.ParentIndex, stack', clock')
         == Step(State(old(profiler.Anchors[..]), old(profiler.ParentIndex), stack, clock), e, U64Of)
  {
    hide U64Of, Left;
    stack', clock' := stack, clock;
    match e {
      case Enter(a) =>
        var scope := profiler.Enter(a, U64Of(clock));
        stack' := stack + [scope];
      case Leave =>
        profiler.Leave(stack[|stack| - 1], U64Of(clock));
        stack' := stack[..|stack| - 1];
      case Tick(dt) => clock' := clock + dt;
    }
  }

  /** A program whose scopes open and close as `events` say leaves the anchors of the machine's run. */
  method Replay(events: seq<Event>, time: nat) returns (profiler: Profiler, stack: seq<ProfilerScope>)
    requires Nested(events, 0, ANCHORS)
    ensures profiler.Anchors[..] == Run(events, Begin(time), U64Of).anchors
    ensures stack == Run(events, Begin(time), U64Of).stack
  {
    hide U64Of, Step;
    profiler := new Profiler();
    stack := [];
    var clock := time;
    ghost var s := Begin(time);
    for i := 0 to |events|
      invariant profiler.Valid() && fresh(profiler) && fresh(profiler.Anchors)
      invariant s == State(profiler.Anchors[..], profiler.ParentIndex, stack, clock) && Proper(s)
      invariant |s.anchors| == ANCHORS && Nested(events[i..], |stack|, ANCHORS)
      invariant Run(events[i..], s, U64Of) == Run(events, Begin(time), U64Of)
    {
      assert events[i..][1..] == events[i + 1..];
      StackDepth(s, events[i]);
      s := Step(s, events[i], U64Of);
      stack, clock := Perform(profiler, events[i], stack, clock);
    }
  }

  lemma StackDepth(s: State, e: Event)
    requires Proper(s) && Enabled(s, e)
    ensures |Step(s, e, U64Of).stack| == |s.stack| + (if e.Enter? then 1 else 0) - (if e.Leave? then 1 else 0)
  {
  }

  // ---------- The bookkeeping as a machine ----------

  datatype Event = Enter(a: nat) | Leave | Tick(dt: nat)

  datatype State = State(anchors: seq<ProfileAnchor>, parent: nat, stack: seq<ProfilerScope>, time: nat)

  /** The anchors after a scope is left; `word` stores a number in a machine word. */
  function Left(anchors: seq<ProfileAnchor>, scope: ProfilerScope, elapsed: int, word: int -> int): seq<ProfileAnchor>
    requires scope.AnchorIndex < |anchors| && scope.ParentIndex < |anchors|
  {
    var a, p := scope.AnchorIndex, scope.ParentIndex;
    var debited := anchors[p := anchors[p].(ElapsedSelf := word(anchors[p].ElapsedSelf - elapsed))];
    debited[a := ProfileAnchor(word(debited[a].ElapsedSelf + elapsed), word(scope.OldElapsedChildren + elapsed),
                               word(debited[a].HitCount + 1))]
  }

  predicate Proper(s: State) {
    && s.parent < |s.anchors|
    && forall k :: 0 <= k < |s.stack| ==> s.stack[k].AnchorIndex < |s.anchors| && s.stack[k].ParentIndex < |s.anchors|
  }

  predicate Enabled(s: State, e: Event) {
    match e
    case Enter(a) => 0 < a < |s.anchors|
    case Leave => s.stack != []
    case Tick(_) => true
  }

  function Step(s: State, e: Event, word: int -> int): (s': State)
    requires Proper(s) && Enabled(s, e)
    ensures Proper(s') && |s'.anchors| == |s.anchors|
  {
    match e
    case Enter(a) =>
      s.(parent := a, stack := s.stack + [ProfilerScope(word(s.time), s.anchors[a].ElapsedChildren, a, s.parent)])
    case Leave =>
      var scope := s.stack[|s.stack| - 1];
      State(Left(s.anchors, scope, word(word(s.time) - scope.Start), word), scope.ParentIndex,
            s.stack[..|s.stack| - 1], s.time)
    case Tick(dt) => s.(time := s.time + dt)
  }

  /** Scopes nest: from `depth` open scopes, every scope left is one that is open. */
  predicate Nested(events: seq<Event>, depth: nat, n: nat) {
    events == [] || match events[0]
      case Enter(a) => 0 < a < n && Nested(events[1..], depth + 1, n)
      case Leave => depth > 0 && Nested(events[1..], depth - 1, n)
      case Tick(_) => Nested(events[1..], depth, n)
  }

  function Run(events: seq<Event>, s: State, word: int -> int): State
    requires Proper(s) && Nested(events, |s.stack|, |s.anchors|)
    decreases |events|
  {
    if events == [] then s else Run(events[1..], Step(s, events[0], word), word)
  }

  function Begin(time: nat): (s: State)
    ensures Proper(s) && |s.anchors| == ANCHORS
  {
    State(seq(ANCHORS, _ => ProfileAnchor(0, 0, 0)), 0, [], time)
  }

  // ---------- Tick by tick ----------

  /** The anchors on the stack, and for every anchor the ticks spent in it. */
  datatype Meter = Meter(stack: seq<nat>, inner: seq<nat>, within: seq<nat>, hits: seq<nat>)

  predicate MeterOk(m: Meter, n: nat) {
    |m.inner| == |m.within| == |m.hits| == n && forall k :: 0 <= k < |m.stack| ==> m.stack[k] < n
  }

  /** A tick counts for the innermost anchor, and once for each anchor on the stack. */
  function MeterStep(m: Meter, e: Event, n: nat): (m': Meter)
    requires MeterOk(m, n) && (e.Enter? ==> e.a < n) && (e.Leave? ==> m.stack != [])
    ensures MeterOk(m', n)
  {
    match e
    case Enter(a) => m.(stack := m.stack + [a])
    case Leave =>
      var a := m.stack[|m.stack| - 1];
      m.(stack := m.stack[..|m.stack| - 1], hits := m.hits[a := m.hits[a] + 1])
    case Tick(dt) =>
      m.(inner := seq(n, a requires 0 <= a < n =>
                    m.inner[a] + if m.stack != [] && m.stack[|m.stack| - 1] == a then dt else 0),
         within := seq(n, a requires 0 <= a < n => m.within[a] + if a in m.stack then dt else 0))
  }

  function MeterBegin(n: nat): Meter {
    Meter([], seq(n, _ => 0), seq(n, _ => 0), seq(n, _ => 0))
  }

  function MeterRun(events: seq<Event>, m: Meter, n: nat): (r: Meter)
    requires MeterOk(m, n) && Nested(events, |m.stack|, n)
    ensures MeterOk(r, n)
    decreases |events|
  {
    if events == [] then m else MeterRun(events[1..], MeterStep(m, events[0], n), n)
  }

  // ---------- The machine on unbounded integers ----------

  function Unbounded(x: int): int {
    x
  }

  /** The part of anchor `a`'s `ElapsedSelf` that the open scopes still owe it. */
  ghost function Owed(stack: seq<ProfilerScope>, time: int, a: nat): int {
    if stack == [] then 0
    else
      var top := stack[|stack| - 1];
      Owed(stack[..|stack| - 1], time, a)
      + (if top.AnchorIndex == a then time - top.Start else 0)
      - (if top.ParentIndex == a then time - top.Start else 0)
  }

  /** Each scope's parent is the scope below it, or the root anchor 0. */
  ghost predicate Linked(stack: seq<ProfilerScope>) {
    forall k :: 0 <= k < |stack| ==> LinkedAt(stack, k)
  }

  ghost predicate LinkedAt(stack: seq<ProfilerScope>, k: nat)
    requires k < |stack|
  {
    stack[k].ParentIndex == if k == 0 then 0 else stack[k - 1].AnchorIndex
  }

  lemma LinkedPrefix(stack: seq<ProfilerScope>)
    requires Linked(stack) && stack != []
    ensures Linked(stack[..|stack| - 1]) && Top(stack[..|stack| - 1]) == stack[|stack| - 1].ParentIndex
  {
    var rest := stack[..|stack| - 1];
    assert LinkedAt(stack, |stack| - 1);
    forall k | 0 <= k < |rest| ensures LinkedAt(rest, k) {
      assert LinkedAt(stack, k);
    }
  }

  function Top(stack: seq<ProfilerScope>): nat {
    if stack == [] then 0 else stack[|stack| - 1].AnchorIndex
  }

  lemma {:induction false} OwedTick(stack: seq<ProfilerScope>, time: int, dt: int, a: nat)
    requires Linked(stack)
    ensures Owed(stack, time + dt, a) ==
      Owed(stack, time, a) + (if Top(stack) == a then dt else 0) - (if a == 0 then dt else 0)
  {
    if stack != [] {
      LinkedPrefix(stack);
      OwedTick(stack[..|stack| - 1], time, dt, a);
    }
  }

  /** Where anchor `a` first occurs on the stack. */
  ghost function First(stack: seq<ProfilerScope>, a: nat): (k: nat)
    ensures k <= |stack| && (k < |stack| ==> stack[k].AnchorIndex == a)
    ensures forall j :: 0 <= j < k ==> stack[j].AnchorIndex != a
  {
    if stack == [] || stack[0].AnchorIndex == a then 0 else 1 + First(stack[1..], a)
  }

  lemma {:induction false} FirstIs(stack: seq<ProfilerScope>, a: nat, k: nat)
    requires k <= |stack| && (k < |stack| ==> stack[k].AnchorIndex == a)
    requires forall j :: 0 <= j < k ==> stack[j].AnchorIndex != a
    ensures First(stack, a) == k
  {
    hide First;
  }

  /** The inclusive time of anchor `a`: that of its outermost open scope, or the recorded one. */
  ghost function InclusiveSoFar(s: State, a: nat): int
    requires a < |s.anchors|
  {
    var k := First(s.stack, a);
    if k < |s.stack| then s.stack[k].OldElapsedChildren + s.time - s.stack[k].Start
    else s.anchors[a].ElapsedChildren
  }

  ghost predicate AnchorInv(s: State, m: Meter, a: nat)
    requires a < |s.anchors| && MeterOk(m, |s.anchors|)
  {
    && (a > 0 ==> s.anchors[a].ElapsedSelf + Owed(s.stack, s.time, a) == m.inner[a])
    && InclusiveSoFar(s, a) == m.within[a]
    && s.anchors[a].HitCount == m.hits[a]
  }

  ghost predicate Inv(s: State, m: Meter) {
    && Proper(s) && MeterOk(m, |s.anchors|) && Linked(s.stack) && s.parent == Top(s.stack)
    && |m.stack| == |s.stack| && (forall k :: 0 <= k < |s.stack| ==> s.stack[k].AnchorIndex == m.stack[k] > 0)
    && forall a :: 0 <= a < |s.anchors| ==> AnchorInv(s, m, a)
  }

  lemma EnterKeepsInv(s: State, m: Meter, e: Event)
    requires Inv(s, m) && e.Enter? && Enabled(s, e)
    ensures Inv(Step(s, e, Unbounded), MeterStep(m, e, |s.anchors|))
  {
    hide AnchorInv;
    var s', m' := Step(s, e, Unbounded), MeterStep(m, e, |s.anchors|);
    assert s'.stack[..|s.stack|] == s.stack;
    forall k | 0 <= k < |s'.stack| ensures LinkedAt(s'.stack, k) {
      assert k < |s.stack| ==> LinkedAt(s.stack, k);
    }
    forall a | 0 <= a < |s.anchors| ensures AnchorInv(s', m', a) {
      EnterKeepsAnchor(s, m, e, a);
    }
  }

  lemma EnterKeepsAnchor(s: State, m: Meter, e: Event, a: nat)
    requires Proper(s) && MeterOk(m, |s.anchors|) && e.Enter? && Enabled(s, e) && a < |s.anchors| && AnchorInv(s, m, a)
    ensures AnchorInv(Step(s, e, Unbounded), MeterStep(m, e, |s.anchors|), a)
  {
    var scope := ProfilerScope(s.time, s.anchors[e.a].ElapsedChildren, e.a, s.parent);
    PushScope(s.stack, scope, s.time, a);
    hide Owed, First;
  }

  lemma PushScope(stack: seq<ProfilerScope>, scope: ProfilerScope, time: int, a: nat)
    requires scope.Start == time
    ensures Owed(stack + [scope], time, a) == Owed(stack, time, a)
    ensures First(stack + [scope], a) ==
      if First(stack, a) < |stack| || scope.AnchorIndex == a then First(stack, a) else |stack| + 1
  {
    hide First;
    var k := First(stack, a);
    assert (stack + [scope])[..|stack|] == stack;
    FirstIs(stack + [scope], a, if k < |stack| || scope.AnchorIndex == a then k else |stack| + 1);
  }

  lemma LeaveKeepsInv(s: State, m: Meter)
    requires Inv(s, m) && s.stack != []
    ensures Inv(Step(s, Leave, Unbounded), MeterStep(m, Leave, |s.anchors|))
  {
    hide AnchorInv;
    LinkedPrefix(s.stack);
    var s', m' := Step(s, Leave, Unbounded), MeterStep(m, Leave, |s.anchors|);
    forall a | 0 <= a < |s.anchors| ensures AnchorInv(s', m', a) {
      LeaveKeepsAnchor(s, m, a);
    }
  }

  lemma LeaveKeepsAnchor(s: State, m: Meter, a: nat)
    requires Proper(s) && MeterOk(m, |s.anchors|) && s.stack != [] && m.stack != [] && a < |s.anchors|
    requires m.stack[|m.stack| - 1] == s.stack[|s.stack| - 1].AnchorIndex && AnchorInv(s, m, a)
    ensures AnchorInv(Step(s, Leave, Unbounded), MeterStep(m, Leave, |s.anchors|), a)
  {
    hide First;
    var s', n, k := Step(s, Leave, Unbounded), |s.stack| - 1, First(s.stack, a);
    FirstIs(s'.stack, a, if k < n then k else n);
  }

  lemma TickKeepsInv(s: State, m: Meter, dt: nat)
    requires Inv(s, m)
    ensures Inv(Step(s, Tick(dt), Unbounded), MeterStep(m, Tick(dt), |s.anchors|))
  {
    var s', m' := Step(s, Tick(dt), Unbounded), MeterStep(m, Tick(dt), |s.anchors|);
    forall a | 0 <= a < |s.anchors| ensures AnchorInv(s', m', a) {
      assert AnchorInv(s, m, a);
      OwedTick(s.stack, s.time, dt, a);
      var k := First(s.stack, a);
      if k == |s.stack| {
        assert a !in m.stack;
      } else {
        assert m.stack[k] == a;
      }
    }
  }

  lemma StepKeepsInv(s: State, m: Meter, e: Event)
    requires Inv(s, m) && Enabled(s, e)
    ensures Inv(Step(s, e, Unbounded), MeterStep(m, e, |s.anchors|))
  {
    match e
    case Enter(_) => EnterKeepsInv(s, m, e);
    case Leave => LeaveKeepsInv(s, m);
    case Tick(dt) => TickKeepsInv(s, m, dt);
  }

  // ---------- The books balance ----------

  ghost function SelfSum(anchors: seq<ProfileAnchor>): int {
    if anchors == [] then 0 else anchors[0].ElapsedSelf + SelfSum(anchors[1..])
  }

  lemma {:induction false} SelfSumUpdate(anchors: seq<ProfileAnchor>, k: nat, x: ProfileAnchor)
    requires k < |anchors|
    ensures SelfSum(anchors[k := x]) == SelfSum(anchors) - anchors[k].ElapsedSelf + x.ElapsedSelf
  {
    var anchors' := anchors[k := x];
    if k == 0 {
      assert anchors'[1..] == anchors[1..];
    } else {
      SelfSumUpdate(anchors[1..], k - 1, x);
      assert anchors'[1..] == anchors[1..][k - 1 := x];
    }
  }

  /** Leaving a scope moves time from the parent to the anchor. */
  lemma StepKeepsSelfSum(s: State, e: Event)
    requires Proper(s) && Enabled(s, e)
    ensures SelfSum(Step(s, e, Unbounded).anchors) == SelfSum(s.anchors)
  {
    if e.Leave? {
      var scope := s.stack[|s.stack| - 1];
      var a, p, elapsed := scope.AnchorIndex, scope.ParentIndex, s.time - scope.Start;
      var debited := s.anchors[p := s.anchors[p].(ElapsedSelf := s.anchors[p].ElapsedSelf - elapsed)];
      SelfSumUpdate(s.anchors, p, debited[p]);
      SelfSumUpdate(debited, a, Step(s, e, Unbounded).anchors[a]);
    }
  }

  lemma {:induction false} SelfSumWraps(anchors: seq<ProfileAnchor>)
    ensures U64Of(SelfSum(WrapAnchors(anchors))) == U64Of(SelfSum(anchors))
  {
    if anchors != [] {
      SelfSumWraps(anchors[1..]);
      assert WrapAnchors(anchors)[1..] == WrapAnchors(anchors[1..]);
      WrapAdd(anchors[0].ElapsedSelf, SelfSum(anchors[1..]));
      WrapAdd(U64Of(anchors[0].ElapsedSelf), SelfSum(WrapAnchors(anchors[1..])));
    }
  }

  // ---------- Wrapping ----------

  function WrapAnchor(x: ProfileAnchor): ProfileAnchor {
    ProfileAnchor(U64Of(x.ElapsedSelf), U64Of(x.ElapsedChildren), U64Of(x.HitCount))
  }

  function WrapAnchors(anchors: seq<ProfileAnchor>): seq<ProfileAnchor> {
    seq(|anchors|, k requires 0 <= k < |anchors| => WrapAnchor(anchors[k]))
  }

  function WrapScope(x: ProfilerScope): ProfilerScope {
    x.(Start := U64Of(x.Start), OldElapsedChildren := U64Of(x.OldElapsedChildren))
  }

  /** The machine state whose words hold the numbers of `s` modulo 2^64. */
  function Wrap(s: State): State {
    State(WrapAnchors(s.anchors), s.parent,
          seq(|s.stack|, k requires 0 <= k < |s.stack| => WrapScope(s.stack[k])), s.time)
  }

  lemma SameWord(x: int, y: int, k: int)
    requires x == y + k * U64
    ensures U64Of(x) == U64Of(y)
  {
  }

  lemma WrapAdd(x: int, y: int)
    ensures U64Of(U64Of(x) + U64Of(y)) == U64Of(x + y)
    ensures U64Of(U64Of(x) - U64Of(y)) == U64Of(x - y)
    ensures U64Of(U64Of(x) + 1) == U64Of(x + 1) && U64Of(U64Of(x)) == U64Of(x)
  {
    var q, r := x / U64, y / U64;
    assert x == q * U64 + U64Of(x) && y == r * U64 + U64Of(y);
    hide U64Of;
    SameWord(x + y, U64Of(x) + U64Of(y), q + r);
    SameWord(x - y, U64Of(x) - U64Of(y), q - r);
    SameWord(x + 1, U64Of(x) + 1, q);
    SameWord(x, U64Of(x), q);
  }

  lemma LeftWraps(anchors: seq<ProfileAnchor>, scope: ProfilerScope, elapsed: int)
    requires scope.AnchorIndex < |anchors| && scope.ParentIndex < |anchors|
    ensures Left(WrapAnchors(anchors), WrapScope(scope), U64Of(elapsed), U64Of)
         == WrapAnchors(Left(anchors, scope, elapsed, Unbounded))
  {
    hide U64Of;
    var a, p := scope.AnchorIndex, scope.ParentIndex;
    WrapAdd(anchors[p].ElapsedSelf, elapsed);
    WrapAdd(anchors[p].ElapsedSelf - elapsed, elapsed);
    WrapAdd(anchors[a].ElapsedSelf, elapsed);
    WrapAdd(scope.OldElapsedChildren, elapsed);
    WrapAdd(anchors[a].HitCount, elapsed);
  }

  lemma StepWraps(s: State, e: Event)
    requires Proper(s)
    ensures Proper(Wrap(s)) && (Enabled(Wrap(s), e) <==> Enabled(s, e))
    ensures Enabled(s, e) ==> Step(Wrap(s), e, U64Of) == Wrap(Step(s, e, Unbounded))
  {
    hide U64Of;
    if Enabled(s, e) && e.Leave? {
      LeaveWraps(s);
    } else if Enabled(s, e) {
      assert Wrap(Step(s, e, Unbounded)).stack == Step(Wrap(s), e, U64Of).stack;
    }
  }

  lemma LeaveWraps(s: State)
    requires Proper(s) && s.stack != []
    ensures Proper(Wrap(s)) && Step(Wrap(s), Leave, U64Of) == Wrap(Step(s, Leave, Unbounded))
  {
    hide U64Of, WrapAnchors, Left;
    var scope := s.stack[|s.stack| - 1];
    assert |WrapAnchors(s.anchors)| == |s.anchors| by {
      WrapLength(s.anchors);
    }
    LeftWraps(s.anchors, scope, s.time - scope.Start);
    WrapAdd(s.time, scope.Start);
    assert Wrap(Step(s, Leave, Unbounded)).stack == Step(Wrap(s), Leave, U64Of).stack;
  }

  lemma WrapLength(anchors: seq<ProfileAnchor>)
    ensures |WrapAnchors(anchors)| == |anchors|
  {
  }

  // ---------- Whole runs ----------

  lemma {:induction false} RunMeets(events: seq<Event>, s: State, m: Meter)
    requires Inv(s, m) && Nested(events, |s.stack|, |s.anchors|)
    ensures Inv(Run(events, s, Unbounded), MeterRun(events, m, |s.anchors|))
    ensures SelfSum(Run(events, s, Unbounded).anchors) == SelfSum(s.anchors)
    ensures |Run(events, s, Unbounded).anchors| == |s.anchors|
    decreases |events|
  {
    if events != [] {
      StepKeepsInv(s, m, events[0]);
      StepKeepsSelfSum(s, events[0]);
      RunMeets(events[1..], Step(s, events[0], Unbounded), MeterStep(m, events[0], |s.anchors|));
    }
  }

  lemma {:induction false} RunWraps(events: seq<Event>, s: State)
    requires Proper(s) && Nested(events, |s.stack|, |s.anchors|)
    ensures Proper(Wrap(s)) && |Wrap(s).stack| == |s.stack| && |Wrap(s).anchors| == |s.anchors|
    ensures Run(events, Wrap(s), U64Of) == Wrap(Run(events, s, Unbounded))
    decreases |events|
  {
    if events == [] {
      StepWraps(s, Tick(0));
    } else {
      StepWraps(s, events[0]);
      RunWraps(events[1..], Step(s, events[0], Unbounded));
    }
  }

  lemma BeginInv(time: nat)
    ensures Proper(Begin(time)) && Inv(Begin(time), MeterBegin(ANCHORS))
    ensures SelfSum(Begin(time).anchors) == 0 && Wrap(Begin(time)) == Begin(time)
  {
    var s := Begin(time);
    forall a | 0 <= a < ANCHORS ensures AnchorInv(s, MeterBegin(ANCHORS), a) {
    }
    ZeroSum(s.anchors);
  }

  lemma {:induction false} ZeroSum(anchors: seq<ProfileAnchor>)
    requires forall k :: 0 <= k < |anchors| ==> anchors[k].ElapsedSelf == 0
    ensures SelfSum(anchors) == 0
  {
    if anchors != [] {
      ZeroSum(anchors[1..]);
    }
  }

  /** For every properly nested run of scopes with nonzero anchors, recursion included, that ends with no
      scope open: modulo 2^64, each anchor's `ElapsedSelf` is the number of ticks during which it was
      innermost, its `ElapsedChildren` those during which it was anywhere on the stack, its `HitCount`
      the scopes closed; and all the `ElapsedSelf` sum to zero. */
  lemma ProfileIsMeter(events: seq<Event>, time: nat)
    requires Nested(events, 0, ANCHORS) && Run(events, Begin(time), U64Of).stack == []
    ensures var anchors := Run(events, Begin(time), U64Of).anchors;
            var m := MeterRun(events, MeterBegin(ANCHORS), ANCHORS);
            && |anchors| == ANCHORS
            && (forall a :: 0 < a < ANCHORS ==> anchors[a].ElapsedSelf == U64Of(m.inner[a]))
            && (forall a :: 0 <= a < ANCHORS ==> anchors[a].ElapsedChildren == U64Of(m.within[a]))
            && (forall a :: 0 <= a < ANCHORS ==> anchors[a].HitCount == U64Of(m.hits[a]))
            && U64Of(SelfSum(anchors)) == 0
  {
    hide U64Of, Run, MeterRun, WrapAnchors, SelfSum;
    var s, m := Begin(time), MeterBegin(ANCHORS);
    BeginInv(time);
    RunWraps(events, s);
    RunMeets(events, s, m);
    var s', m' := Run(events, s, Unbounded), MeterRun(events, m, ANCHORS);
    SelfSumWraps(s'.anchors);
    WrapLength(s'.anchors);
    assert s'.stack == [];
    forall a | 0 <= a < ANCHORS
      ensures var x := WrapAnchors(s'.anchors)[a];
              && (a > 0 ==> x.ElapsedSelf == U64Of(m'.inner[a]))
              && x.ElapsedChildren == U64Of(m'.within[a]) && x.HitCount == U64Of(m'.hits[a])
    {
      assert AnchorInv(s', m', a);
      Settled(s', m', a);
    }
    ZeroWord();
  }

  lemma Settled(s: State, m: Meter, a: nat)
    requires a < |s.anchors| && MeterOk(m, |s.anchors|) && AnchorInv(s, m, a) && s.stack == []
    ensures |WrapAnchors(s.anchors)| == |s.anchors|
    ensures var x := WrapAnchors(s.anchors)[a];
            && (a > 0 ==> x.ElapsedSelf == U64Of(m.inner[a]))
            && x.ElapsedChildren == U64Of(m.within[a]) && x.HitCount == U64Of(m.hits[a])
  {
  }

  lemma ZeroWord()
    ensures U64Of(0) == 0
  {
  }
}
