/** The ring queue of Lib/QueueThreaded.h: first as an object whose calls run alone, then as a
    machine in which one producer and any number of consumers interleave single atomic steps. */
module QueueThreaded {
  import opened Base
  import opened Ring

  class Queue<T> {
    const Memory: array<T>
    var First: nat
    var Last: nat

    ghost predicate Valid()
      reads this
    {
      First < Memory.Length && Last < Memory.Length
    }

    ghost function Contents(): (s: seq<T>)
      requires Valid()
      reads this, Memory
    {
      if First <= Last then Memory[First..Last] else Memory[First..] + Memory[..Last]
    }

    constructor (memory: array<T>)
      requires memory.Length > 0
      ensures Valid() && Contents() == [] && Memory == memory
    {
      Memory := memory;
      First, Last := 0, 0;
    }

    /** One slot stays unused, so that a full queue differs from an empty one. */
    method Enqueue(value: T) returns (accepted: bool)
      requires Valid()
      modifies this`Last, Memory
      ensures Valid()
      ensures accepted <==> |old(Contents())| < Memory.Length - 1
      ensures Contents() == if accepted then old(Contents()) + [value] else old(Contents())
    {
      var originalLast := Last;
      DivModUnique(originalLast + 1, Memory.Length, if originalLast + 1 == Memory.Length then 1 else 0,
                   Next(originalLast, Memory.Length));
      var newLast := (originalLast + 1) % Memory.Length;
      if newLast != First {
        Memory[originalLast] := value;
        Last := newLast;
        return true;
      }
      return false;
    }

    method Dequeue() returns (outValue: T, taken: bool)
      requires Valid()
      modifies this`First
      ensures Valid()
      ensures taken <==> old(Contents()) != []
      ensures taken ==> old(Contents()) == [outValue] + Contents()
      ensures !taken ==> Contents() == old(Contents())
    {
      var originalFirst := First;
      outValue := Memory[originalFirst];
      if originalFirst != Last {
        DivModUnique(originalFirst + 1, Memory.Length, if originalFirst + 1 == Memory.Length then 1 else 0,
                     Next(originalFirst, Memory.Length));
        var newFirst := (originalFirst + 1) % Memory.Length;
        First := newFirst;
        return outValue, true;
      }
      return outValue, false;
    }
  }

  // ---------- Interleaved steps ----------

  /** Where the producer stands inside `Enqueue`. */
  datatype Producer<T> =
    | Idle
    | Loaded(last: nat, value: T)      // has loaded Last
    | Writing(last: nat, value: T)     // has seen a free slot
    | Publishing(last: nat, value: T)  // has written the slot

  /** Where a consumer stands inside `Dequeue`. Its `ticket` counts the claims made before it loaded
      `First`; the code never sees it. */
  datatype Consumer =
    | Waiting
    | SawFirst(first: nat, ticket: nat)
    | SawNonEmpty(first: nat, ticket: nat)
    | Claimed(index: nat, ticket: nat)

  /** The shared words and the program counters, followed by the history: the values published, the
      number of claims, and the tickets claimed and values copied out in order. */
  datatype State<T> = State(
    First: nat, Last: nat, Memory: seq<T>, producer: Producer<T>, consumers: seq<Consumer>,
    sent: seq<T>, taken: nat, claims: seq<nat>, out: seq<(nat, T)>)

  /** One atomic step of one thread. `Produce` starts an `Enqueue` of `value` if none is under way. */
  datatype Action<T> = Produce(value: T) | Consume(c: nat)

  ghost predicate Start<T>(s: State<T>) {
    && |s.Memory| > 0 && s.First == s.Last == s.taken == 0
    && s.producer.Idle? && (forall c :: 0 <= c < |s.consumers| ==> s.consumers[c].Waiting?)
    && s.sent == [] && s.claims == [] && s.out == []
  }

  predicate WellTyped<T>(s: State<T>) {
    && (s.producer.Writing? ==> s.producer.last < |s.Memory|)
    && (forall c :: 0 <= c < |s.consumers| ==>
          s.consumers[c].Claimed? ==> s.consumers[c].index < |s.Memory|)
    && |s.Memory| > 0
  }

  function ProducerStep<T>(s: State<T>, value: T): State<T>
    requires WellTyped(s)
  {
    match s.producer
    case Idle => s.(producer := Loaded(s.Last, value))
    case Loaded(last, v) =>
      if (last + 1) % |s.Memory| != s.First then s.(producer := Writing(last, v)) else s.(producer := Idle)
    case Writing(last, v) => s.(Memory := s.Memory[last := v], producer := Publishing(last, v))
    case Publishing(last, v) =>
      s.(Last := (last + 1) % |s.Memory|, producer := Idle, sent := s.sent + [v])
  }

  function ConsumerStep<T>(s: State<T>, c: nat): State<T>
    requires WellTyped(s) && c < |s.consumers|
  {
    match s.consumers[c]
    case Waiting => s.(consumers := s.consumers[c := SawFirst(s.First, s.taken)])
    case SawFirst(first, t) =>
      s.(consumers := s.consumers[c := if first != s.Last then SawNonEmpty(first, t) else Waiting])
    case SawNonEmpty(first, t) =>
      if s.First == first then
        s.(First := (first + 1) % |s.Memory|, consumers := s.consumers[c := Claimed(first, t)],
           taken := s.taken + 1, claims := s.claims + [t])
      else
        s.(consumers := s.consumers[c := Waiting])
    case Claimed(index, t) =>
      s.(consumers := s.consumers[c := Waiting], out := s.out + [(t, s.Memory[index])])
  }

  function Step<T>(s: State<T>, a: Action<T>): State<T>
    requires WellTyped(s)
  {
    match a
    case Produce(v) => ProducerStep(s, v)
    case Consume(c) => if c < |s.consumers| then ConsumerStep(s, c) else s
  }

  // ---------- What every step keeps ----------

  /** How many tickets have been written to their slots. */
  function Written<T>(s: State<T>): nat {
    |s.sent| + if s.producer.Publishing? then 1 else 0
  }

  ghost predicate ProducerInv<T>(s: State<T>)
    requires |s.Memory| > 0
  {
    match s.producer
    case Idle => true
    case Loaded(last, _) => last == s.Last
    case Writing(last, _) => last == s.Last && |s.sent| <= s.taken + |s.Memory| - 2
    case Publishing(last, v) =>
      last == s.Last < |s.Memory| && |s.sent| <= s.taken + |s.Memory| - 2 && s.Memory[last] == v
  }

  ghost predicate ConsumerInv<T>(s: State<T>, c: Consumer)
    requires |s.Memory| > 0
  {
    match c
    case Waiting => true
    case SawFirst(first, t) => first == t % |s.Memory| && t <= s.taken
    case SawNonEmpty(first, t) => first == t % |s.Memory| && t <= s.taken && t < |s.sent|
    case Claimed(index, t) => index == t % |s.Memory| && t < |s.sent|
  }

  /** The counters are the tickets modulo the capacity, the claims never pass the publications, and
      the memory holds the last `Capacity` written values. */
  ghost predicate Inv<T>(s: State<T>) {
    var n := |s.Memory|;
    && n > 0 && s.First == s.taken % n && s.Last == |s.sent| % n
    && s.First < n && s.Last < n
    && s.taken <= |s.sent| <= s.taken + n - 1
    && ProducerInv(s)
    && (forall c :: 0 <= c < |s.consumers| ==> ConsumerInv(s, s.consumers[c]))
    && (forall t :: 0 <= t < |s.sent| && Written(s) - n <= t ==> s.Memory[t % n] == s.sent[t])
  }

  /** The compare-exchange of consumer `c` would succeed on an empty queue: other consumers moved
      `First` a whole number of laps since `c` loaded it. */
  predicate ClaimsFromEmpty<T>(s: State<T>, a: Action<T>) {
    a.Consume? && a.c < |s.consumers| && s.consumers[a.c].SawNonEmpty?
    && s.consumers[a.c].first == s.First == s.Last
  }

  /** Fewer than `Capacity` claims were made since the consumer about to compare-exchange loaded
      `First`. */
  predicate Timely<T>(s: State<T>, a: Action<T>) {
    a.Consume? && a.c < |s.consumers| && s.consumers[a.c].SawNonEmpty? ==>
      s.taken < s.consumers[a.c].ticket + |s.Memory|
  }

  lemma ModNext(t: nat, n: nat)
    requires n > 0
    ensures (t % n + 1) % n == (t + 1) % n < n
  {
    var q, r := t / n, t % n;
    if r + 1 == n {
      assert t + 1 == (q + 1) * n;
      DivModUnique(t + 1, n, q + 1, 0);
      DivModUnique(n, n, 1, 0);
    } else {
      assert t + 1 == q * n + (r + 1);
      DivModUnique(t + 1, n, q, r + 1);
      DivModUnique(r + 1, n, 0, r + 1);
    }
  }

  lemma ModDistinct(a: nat, b: nat, n: nat)
    requires n > 0 && a < b < a + n
    ensures a % n != b % n
  {
    var q, p := a / n, b / n;
    assert q * n + a % n == a && p * n + b % n == b;
    if q < p {
      MulLess(n, q, p);
    } else if p < q {
      MulLess(n, p, q);
    }
  }

  /** `First == Last` says exactly that nothing is waiting. */
  lemma EmptyIffEqual<T>(s: State<T>)
    requires Inv(s)
    ensures s.First == s.Last <==> s.taken == |s.sent|
  {
    if s.taken < |s.sent| {
      ModDistinct(s.taken, |s.sent|, |s.Memory|);
    }
  }

  lemma ProducerKeepsInv<T>(s: State<T>, value: T)
    requires Inv(s)
    ensures Inv(ProducerStep(s, value))
  {
    var n, w, s' := |s.Memory|, |s.sent|, ProducerStep(s, value);
    ModNext(w, n);
    match s.producer
    case Idle =>
    case Loaded(last, v) =>
      if w == s.taken + n - 1 {
        assert w + 1 == s.taken + n;
        LapSame(s.taken, n);
      }
    case Writing(last, v) =>
      forall t | 0 <= t < w && w + 1 - n <= t ensures s'.Memory[t % n] == s.sent[t] {
        ModDistinct(t, w, n);
      }
    case Publishing(last, v) =>
      assert forall t :: 0 <= t < w ==> s'.sent[t] == s.sent[t];
  }

  lemma LapSame(t: nat, n: nat)
    requires n > 0
    ensures (t + n) % n == t % n
  {
    assert t + n == n * (t / n + 1) + t % n;
    DivModUnique(t + n, n, t / n + 1, t % n);
  }

  /** `Enqueue` gives up exactly when, at its load of `First`, all slots but one hold unclaimed values. */
  lemma RefusesIffFull<T>(s: State<T>, value: T)
    requires Inv(s) && s.producer.Loaded?
    ensures ProducerStep(s, value).producer.Idle? <==> |s.sent| == s.taken + |s.Memory| - 1
  {
    ModNext(|s.sent|, |s.Memory|);
    if |s.sent| + 1 == s.taken + |s.Memory| {
      LapSame(s.taken, |s.Memory|);
    } else {
      ModDistinct(s.taken, |s.sent| + 1, |s.Memory|);
    }
  }

  lemma SameModIff(a: nat, b: nat, n: nat)
    requires n > 0 && a <= b
    ensures a % n == b % n <==> (b - a) % n == 0
  {
    var d := b - a;
    SumMod(n, a / n, a % n, d / n, d % n, b);
  }

  lemma SumMod(n: nat, q: nat, r: nat, p: nat, e: nat, b: nat)
    requires r < n && e < n && b == n * q + r + (n * p + e)
    ensures b % n == if r + e < n then r + e else r + e - n
  {
    assert (q + p) * n == n * q + n * p && (q + p + 1) * n == (q + p) * n + n;
    if r + e < n {
      DivModUnique(b, n, q + p, r + e);
    } else {
      DivModUnique(b, n, q + p + 1, r + e - n);
    }
  }

  /** `Dequeue` gives up at its load of `Last` exactly when a whole number of laps was published beyond its
      ticket; if no claim came between its two loads, exactly when nothing is waiting. */
  lemma GivesUpIff<T>(s: State<T>, c: nat)
    requires Inv(s) && c < |s.consumers| && s.consumers[c].SawFirst?
    ensures var t := s.consumers[c].ticket;
            && t <= |s.sent| && WellTyped(s)
            && (ConsumerStep(s, c).consumers[c].Waiting? <==> (|s.sent| - t) % |s.Memory| == 0)
            && (t == s.taken ==> (ConsumerStep(s, c).consumers[c].Waiting? <==> Pending(s) == []))
  {
    InvWellTyped(s);
    assert ConsumerInv(s, s.consumers[c]);
    SameModIff(s.consumers[c].ticket, |s.sent|, |s.Memory|);
    EmptyIffEqual(s);
  }

  /** The compare-exchange succeeds exactly when whole laps were claimed since the load of `First`, none in
      a timely step; otherwise the call gives up and nothing else changes. */
  lemma ClaimsIff<T>(s: State<T>, c: nat)
    requires Inv(s) && c < |s.consumers| && s.consumers[c].SawNonEmpty?
    ensures var t := s.consumers[c].ticket;
            && t <= s.taken && WellTyped(s)
            && (ConsumerStep(s, c).taken == s.taken + 1 <==> (s.taken - t) % |s.Memory| == 0)
            && (Timely(s, Consume(c)) ==> (ConsumerStep(s, c).taken == s.taken + 1 <==> s.taken == t))
            && (ConsumerStep(s, c).taken != s.taken + 1 ==>
                  ConsumerStep(s, c) == s.(consumers := s.consumers[c := Waiting]))
  {
    InvWellTyped(s);
    assert ConsumerInv(s, s.consumers[c]);
    var t := s.consumers[c].ticket;
    SameModIff(t, s.taken, |s.Memory|);
    if t < s.taken < t + |s.Memory| {
      ModDistinct(t, s.taken, |s.Memory|);
    }
  }

  /** A consumer's step keeps the invariant if and only if it does not claim from an empty queue. */
  lemma ConsumerKeepsInvIff<T>(s: State<T>, c: nat)
    requires Inv(s) && c < |s.consumers|
    ensures Inv(ConsumerStep(s, c)) <==> !ClaimsFromEmpty(s, Consume(c))
  {
    EmptyIffEqual(s);
    ModNext(s.taken, |s.Memory|);
    var s' := ConsumerStep(s, c);
    assert forall d :: 0 <= d < |s.consumers| && d != c ==> s'.consumers[d] == s.consumers[d];
    assert forall d :: 0 <= d < |s.consumers| ==> ConsumerInv(s, s.consumers[d]);
    if s.consumers[c].SawNonEmpty? && s.First == s.consumers[c].first && s.taken < |s.sent| {
      assert ConsumerInv(s', s'.consumers[c]);
    }
  }

  /** A timely claim is never one from an empty queue, and takes the next ticket. */
  lemma TimelyClaim<T>(s: State<T>, c: nat)
    requires Inv(s) && c < |s.consumers| && s.consumers[c].SawNonEmpty? && Timely(s, Consume(c))
    ensures s.First == s.consumers[c].first ==> s.consumers[c].ticket == s.taken < |s.sent|
    ensures !ClaimsFromEmpty(s, Consume(c))
  {
    EmptyIffEqual(s);
    assert ConsumerInv(s, s.consumers[c]);
    var t := s.consumers[c].ticket;
    if t < s.taken {
      ModDistinct(t, s.taken, |s.Memory|);
    }
  }

  lemma StepKeepsInv<T>(s: State<T>, a: Action<T>)
    requires Inv(s) && Timely(s, a)
    ensures WellTyped(s) && Inv(Step(s, a))
  {
    InvWellTyped(s);
    match a
    case Produce(v) => ProducerKeepsInv(s, v);
    case Consume(c) =>
      if c < |s.consumers| {
        ConsumerKeepsInvIff(s, c);
        if s.consumers[c].SawNonEmpty? {
          TimelyClaim(s, c);
        }
      }
  }

  lemma InvWellTyped<T>(s: State<T>)
    requires Inv(s)
    ensures WellTyped(s)
  {
    forall c | 0 <= c < |s.consumers| && s.consumers[c].Claimed?
      ensures s.consumers[c].index < |s.Memory|
    {
      assert ConsumerInv(s, s.consumers[c]);
    }
  }

  // ---------- Whole runs ----------

  /** The states of a run: a schedule is any sequence of steps by any threads. */
  ghost predicate IsRun<T>(states: seq<State<T>>, schedule: seq<Action<T>>) {
    && |states| == |schedule| + 1 && Start(states[0])
    && forall i :: 0 <= i < |schedule| ==> WellTyped(states[i]) && states[i + 1] == Step(states[i], schedule[i])
  }

  ghost predicate TimelyRun<T>(states: seq<State<T>>, schedule: seq<Action<T>>)
    requires |states| == |schedule| + 1
  {
    forall i :: 0 <= i < |schedule| ==> Timely(states[i], schedule[i])
  }

  /** Claims take the tickets 0, 1, 2, ... each exactly once. */
  ghost predicate ConsecutiveClaims<T>(s: State<T>) {
    |s.claims| == s.taken && forall t :: 0 <= t < |s.claims| ==> s.claims[t] == t
  }

  lemma {:induction false} TimelyRunInv<T>(states: seq<State<T>>, schedule: seq<Action<T>>, i: nat)
    requires IsRun(states, schedule) && TimelyRun(states, schedule) && i < |states|
    ensures Inv(states[i]) && ConsecutiveClaims(states[i])
  {
    if i > 0 {
      TimelyRunInv(states, schedule, i - 1);
      var s, a := states[i - 1], schedule[i - 1];
      StepKeepsInv(s, a);
      if a.Consume? && a.c < |s.consumers| && s.consumers[a.c].SawNonEmpty? {
        TimelyClaim(s, a.c);
      }
    }
  }

  /** One producer, any number of consumers: in a timely run `First` never passes `Last`, and the
      successful claims take consecutive tickets, each exactly once. */
  lemma ManyConsumers<T>(states: seq<State<T>>, schedule: seq<Action<T>>)
    requires IsRun(states, schedule) && TimelyRun(states, schedule)
    ensures forall i :: 0 <= i < |states| ==>
      states[i].taken <= |states[i].sent| < states[i].taken + |states[i].Memory| && ConsecutiveClaims(states[i])
  {
    forall i | 0 <= i < |states|
      ensures states[i].taken <= |states[i].sent| < states[i].taken + |states[i].Memory|
      ensures ConsecutiveClaims(states[i])
    {
      TimelyRunInv(states, schedule, i);
    }
  }

  /** What a consumer copies is the value published under its ticket, unless the producer has already
      written the slot again. */
  lemma CopyIsPublished<T>(s: State<T>, c: nat)
    requires Inv(s) && c < |s.consumers| && s.consumers[c].Claimed?
    requires Written(s) <= s.consumers[c].ticket + |s.Memory|
    ensures var t := s.consumers[c].ticket;
            t < |s.sent| && WellTyped(s) && ConsumerStep(s, c).out == s.out + [(t, s.sent[t])]
  {
    InvWellTyped(s);
    assert ConsumerInv(s, s.consumers[c]);
  }

  /** The queue that an outside observer sees. */
  ghost function Pending<T>(s: State<T>): seq<T>
    requires s.taken <= |s.sent|
  {
    s.sent[s.taken..]
  }

  /** Every timely step is an atomic FIFO operation or invisible: publishing appends the producer's
      value, a successful compare-exchange removes the head. */
  lemma StepRefinesFifo<T>(s: State<T>, a: Action<T>)
    requires Inv(s) && Timely(s, a)
    ensures WellTyped(s) && Inv(Step(s, a))
    ensures var s' := Step(s, a);
            if a.Produce? && s.producer.Publishing? then Pending(s') == Pending(s) + [s.producer.value]
            else if s'.taken > s.taken then Pending(s) != [] && Pending(s') == Pending(s)[1..]
            else Pending(s') == Pending(s)
  {
    StepKeepsInv(s, a);
    if a.Consume? && a.c < |s.consumers| && s.consumers[a.c].SawNonEmpty? {
      TimelyClaim(s, a.c);
    }
  }

  // ---------- One consumer ----------

  /** With a single consumer no assumption on timing is needed: only it moves `First`. */
  ghost predicate SoloInv<T>(s: State<T>) {
    && Inv(s) && |s.consumers| == 1
    && var c := s.consumers[0];
       && (c.SawFirst? || c.SawNonEmpty? ==> c.ticket == s.taken)
       && (c.Claimed? ==> c.ticket + 1 == s.taken)
       && |s.out| == (if c.Claimed? then s.taken - 1 else s.taken)
       && forall t :: 0 <= t < |s.out| ==> s.out[t] == (t, s.sent[t])
  }

  lemma SoloStep<T>(s: State<T>, a: Action<T>)
    requires SoloInv(s)
    ensures WellTyped(s) && SoloInv(Step(s, a))
  {
    StepKeepsInv(s, a);
    var c := s.consumers[0];
    assert ConsumerInv(s, c);
    if a.Consume? && a.c == 0 {
      if c.SawNonEmpty? {
        TimelyClaim(s, 0);
      } else if c.Claimed? {
        CopyIsPublished(s, 0);
      }
    }
  }

  lemma {:induction false} SoloRunInv<T>(states: seq<State<T>>, schedule: seq<Action<T>>, i: nat)
    requires IsRun(states, schedule) && |states[0].consumers| == 1 && i < |states|
    ensures SoloInv(states[i])
  {
    if i > 0 {
      SoloRunInv(states, schedule, i - 1);
      SoloStep(states[i - 1], schedule[i - 1]);
    }
  }

  /** One producer, one consumer, every interleaving: what has been copied out is, in order and
      without loss, repetition or corruption, the beginning of what was published; at most the value
      just claimed is still to be copied. */
  lemma SingleConsumer<T>(states: seq<State<T>>, schedule: seq<Action<T>>, i: nat)
    requires IsRun(states, schedule) && |states[0].consumers| == 1 && i < |states|
    ensures var s := states[i];
            && |s.out| <= s.taken <= |s.sent| && s.taken <= |s.out| + 1
            && (forall t :: 0 <= t < |s.out| ==> s.out[t] == (t, s.sent[t]))
            && (s.consumers != [] && s.consumers[0].Claimed? ==>
                  && |s.out| < |s.sent| && s.consumers[0].index < |s.Memory|
                  && s.Memory[s.consumers[0].index] == s.sent[|s.out|])
  {
    SoloRunInv(states, schedule, i);
    var s := states[i];
    if s.consumers[0].Claimed? {
      assert ConsumerInv(s, s.consumers[0]);
    }
  }

  // ---------- Without the timing assumption ----------

  /** `First` never passes `Last`. */
  ghost predicate Safe<T>(states: seq<State<T>>) {
    forall i :: 0 <= i < |states| ==> states[i].taken <= |states[i].sent|
  }

  lemma {:induction false} SafeUpTo<T>(states: seq<State<T>>, schedule: seq<Action<T>>, i: nat)
    requires IsRun(states, schedule) && i < |states|
    requires Safe(states) || forall k :: 0 <= k < |schedule| ==> !ClaimsFromEmpty(states[k], schedule[k])
    ensures Inv(states[i]) && forall k :: 0 <= k < i ==> !ClaimsFromEmpty(states[k], schedule[k])
  {
    if i > 0 {
      SafeUpTo(states, schedule, i - 1);
      var s, a := states[i - 1], schedule[i - 1];
      assert Safe(states) ==> states[i].taken <= |states[i].sent|;
      EmptyIffEqual(s);
      match a
      case Produce(v) => ProducerKeepsInv(s, v);
      case Consume(c) =>
        if c < |s.consumers| {
          ConsumerKeepsInvIff(s, c);
        }
    }
  }

  /** In every run, `First` never passes `Last` if and only if no step claims from an empty queue. */
  lemma SafeIffNoClaimFromEmpty<T>(states: seq<State<T>>, schedule: seq<Action<T>>)
    requires IsRun(states, schedule)
    ensures Safe(states) <==> forall k :: 0 <= k < |schedule| ==> !ClaimsFromEmpty(states[k], schedule[k])
  {
    if Safe(states) {
      SafeUpTo(states, schedule, |schedule|);
    } else if forall k :: 0 <= k < |schedule| ==> !ClaimsFromEmpty(states[k], schedule[k]) {
      forall i | 0 <= i < |states| ensures states[i].taken <= |states[i].sent| {
        SafeUpTo(states, schedule, i);
      }
    }
  }

  /** Whatever the schedule, a queue of `n` slots is safe with one producer and `c` consumers. */
  ghost predicate AllRunsSafe<T(!new)>(n: nat, c: nat) {
    forall states: seq<State<T>>, schedule: seq<Action<T>> ::
      IsRun(states, schedule) && |states[0].Memory| == n && |states[0].consumers| == c ==> Safe(states)
  }

  /** No assumption on timing is needed if and only if there is one slot, which holds nothing, or at most
      one consumer. */
  lemma AllRunsSafeIff<T(!new)>(n: nat, c: nat, v: T)
    requires n > 0
    ensures AllRunsSafe<T>(n, c) <==> n == 1 || c <= 1
  {
    if n == 1 || c <= 1 {
      forall states: seq<State<T>>, schedule: seq<Action<T>> |
        IsRun(states, schedule) && |states[0].Memory| == n && |states[0].consumers| == c
        ensures Safe(states)
      {
        forall i | 0 <= i < |states| ensures states[i].taken <= |states[i].sent| {
          SmallRunInv(states, schedule, i);
        }
      }
    } else {
      var states, schedule := FullLapBreaksQueue(n, c, v);
      assert !Safe(states);
    }
  }

  ghost predicate SmallInv<T>(s: State<T>, n: nat, c: nat) {
    && Inv(s) && |s.Memory| == n && |s.consumers| == c
    && (n == 1 ==> s.sent == [])
    && (n == 1 || c == 0 ==> s.out == [])
    && (c == 1 ==> SoloInv(s))
  }

  lemma {:induction false} SmallRunInv<T>(states: seq<State<T>>, schedule: seq<Action<T>>, i: nat)
    requires IsRun(states, schedule) && i < |states|
    requires |states[0].Memory| == 1 || |states[0].consumers| <= 1
    ensures SmallInv(states[i], |states[0].Memory|, |states[0].consumers|)
  {
    if i > 0 {
      SmallRunInv(states, schedule, i - 1);
      SmallStep(states[i - 1], schedule[i - 1], |states[0].Memory|, |states[0].consumers|);
    }
  }

  lemma SmallStep<T>(s: State<T>, a: Action<T>, n: nat, c: nat)
    requires SmallInv(s, n, c) && (n == 1 || c <= 1)
    ensures WellTyped(s) && SmallInv(Step(s, a), n, c)
  {
    if c == 1 {
      SoloStep(s, a);
    } else {
      assert a.Consume? && a.c < |s.consumers| ==> ConsumerInv(s, s.consumers[a.c]);
      StepKeepsInv(s, a);
    }
  }

  lemma Then<T>(states: seq<State<T>>, schedule: seq<Action<T>>, a: Action<T>, next: State<T>)
    returns (states': seq<State<T>>, schedule': seq<Action<T>>)
    requires IsRun(states, schedule) && WellTyped(states[|schedule|]) && next == Step(states[|schedule|], a)
    ensures IsRun(states', schedule') && states' == states + [next] && schedule' == schedule + [a]
    ensures TimelyRun(states, schedule) && Timely(states[|schedule|], a) ==> TimelyRun(states', schedule')
  {
    states', schedule' := states + [next], schedule + [a];
    forall i | 0 <= i < |schedule'|
      ensures WellTyped(states'[i]) && states'[i + 1] == Step(states'[i], schedule'[i])
    {
      assert i < |schedule| ==> states'[i] == states[i] && states'[i + 1] == states[i + 1];
    }
  }

  /** With two or more slots and consumers the assumption is needed: consumer 0 is overtaken by a full lap
      between its load and its compare-exchange, claims from the empty queue, and `First` passes `Last`. */
  lemma FullLapBreaksQueue<T>(n: nat, c: nat, v: T) returns (states: seq<State<T>>, schedule: seq<Action<T>>)
    requires n >= 2 && c >= 2
    ensures IsRun(states, schedule) && |states[0].Memory| == n && |states[0].consumers| == c
    ensures states[|schedule|].taken > |states[|schedule|].sent|
  {
    var s := FreshState(n, c, v);
    states, schedule := [s], [];
    assert IsRun(states, schedule);
    hide IsRun;
    DivModUnique(1, n, 0, 1);
    states, schedule := Enqueues(states, schedule, v);
    states, schedule := Checks(states, schedule, 0);
    states, schedule := Dequeues(states, schedule, 1);
    states, schedule := Laps(states, schedule, s, s.consumers[0 := SawNonEmpty(0, 0)], v);
    var a: Action<T> := Consume(0);
    assert ClaimsFromEmpty(states[|schedule|], a);
    states, schedule := Then(states, schedule, a, Step(states[|schedule|], a));
  }

  function FreshState<T>(n: nat, c: nat, v: T): State<T> {
    State(0, 0, seq(n, _ => v), Idle, seq(c, _ => Waiting), [], 0, [], [])
  }

  /** Goes on from one value published and claimed until the ring has been passed once. */
  lemma Laps<T>(states: seq<State<T>>, schedule: seq<Action<T>>, s: State<T>, consumers: seq<Consumer>, v: T)
    returns (states': seq<State<T>>, schedule': seq<Action<T>>)
    requires IsRun(states, schedule) && states[0] == s && |s.Memory| >= 2
    requires Lapped(states[|schedule|], |s.Memory|, consumers, 1, v)
    requires |consumers| >= 2 && consumers[1].Waiting?
    requires consumers[0].Claimed? ==> consumers[0].index < |s.Memory|
    requires forall c :: 1 <= c < |consumers| ==> consumers[c].Waiting?
    ensures IsRun(states', schedule') && states'[0] == s
    ensures TimelyRun(states, schedule) ==> TimelyRun(states', schedule')
    ensures Lapped(states'[|schedule'|], |s.Memory|, consumers, |s.Memory|, v) && states'[|schedule'|].First == 0
  {
    states', schedule' := states, schedule;
    var n := |s.Memory|;
    for k := 1 to n
      invariant IsRun(states', schedule') && states'[0] == s
      invariant TimelyRun(states, schedule) ==> TimelyRun(states', schedule')
      invariant Lapped(states'[|schedule'|], n, consumers, k, v)
    {
      ModNext(k, n);
      DivModUnique(k, n, 0, k);
      states', schedule' := Enqueues(states', schedule', v);
      states', schedule' := Dequeues(states', schedule', 1);
    }
    DivModUnique(n, n, 1, 0);
  }

  /** After `k` values `v` were published and claimed. */
  ghost predicate Lapped<T>(s: State<T>, n: nat, consumers: seq<Consumer>, k: nat, v: T)
    requires n > 0
  {
    && |s.Memory| == n && s.First == s.Last == k % n && s.producer.Idle?
    && s.consumers == consumers && |s.sent| == s.taken == k && (forall t :: 0 <= t < k ==> s.sent[t] == v)
  }

  /** Four uninterrupted steps of the producer. */
  lemma Enqueues<T>(states: seq<State<T>>, schedule: seq<Action<T>>, v: T)
    returns (states': seq<State<T>>, schedule': seq<Action<T>>)
    requires IsRun(states, schedule)
    requires var s := states[|schedule|];
             WellTyped(s) && s.producer.Idle? && s.Last < |s.Memory| && (s.Last + 1) % |s.Memory| != s.First
    ensures IsRun(states', schedule') && states'[0] == states[0]
    ensures TimelyRun(states, schedule) ==> TimelyRun(states', schedule')
    ensures var s := states[|schedule|];
            states'[|schedule'|] == s.(Memory := s.Memory[s.Last := v], Last := (s.Last + 1) % |s.Memory|,
                                       sent := s.sent + [v])
  {
    hide TimelyRun;
    var s, p := states[|schedule|], Produce(v);
    var s1 := s.(producer := Loaded(s.Last, v));
    var s2 := s.(producer := Writing(s.Last, v));
    var s3 := s2.(Memory := s.Memory[s.Last := v], producer := Publishing(s.Last, v));
    states', schedule' := Then(states, schedule, p, s1);
    states', schedule' := Then(states', schedule', p, s2);
    states', schedule' := Then(states', schedule', p, s3);
    states', schedule' := Then(states', schedule', p, Step(s3, p));
  }

  /** A consumer about to call `Dequeue` while a value is waiting. */
  ghost predicate CanDequeue<T>(s: State<T>, c: nat) {
    WellTyped(s) && c < |s.consumers| && s.consumers[c].Waiting? && s.First < |s.Memory| && s.First != s.Last
  }

  /** Consumer `c` sees a value waiting. */
  lemma Checks<T>(states: seq<State<T>>, schedule: seq<Action<T>>, c: nat)
    returns (states': seq<State<T>>, schedule': seq<Action<T>>)
    requires IsRun(states, schedule) && CanDequeue(states[|schedule|], c)
    ensures IsRun(states', schedule') && states'[0] == states[0]
    ensures TimelyRun(states, schedule) ==> TimelyRun(states', schedule')
    ensures var s := states[|schedule|];
            states'[|schedule'|] == s.(consumers := s.consumers[c := SawNonEmpty(s.First, s.taken)])
  {
    hide TimelyRun;
    var s, a: Action<T> := states[|schedule|], Consume(c);
    var s1 := s.(consumers := s.consumers[c := SawFirst(s.First, s.taken)]);
    states', schedule' := Then(states, schedule, a, s1);
    assert s1.consumers[c := SawNonEmpty(s.First, s.taken)] == s.consumers[c := SawNonEmpty(s.First, s.taken)];
    states', schedule' := Then(states', schedule', a, Step(s1, a));
  }

  /** Consumer `c` goes on to claim it. */
  lemma Claims<T>(states: seq<State<T>>, schedule: seq<Action<T>>, c: nat)
    returns (states': seq<State<T>>, schedule': seq<Action<T>>)
    requires IsRun(states, schedule) && CanDequeue(states[|schedule|], c)
    ensures IsRun(states', schedule') && states'[0] == states[0]
    ensures TimelyRun(states, schedule) ==> TimelyRun(states', schedule')
    ensures var s := states[|schedule|];
            states'[|schedule'|] == s.(First := (s.First + 1) % |s.Memory|, taken := s.taken + 1,
                                       consumers := s.consumers[c := Claimed(s.First, s.taken)],
                                       claims := s.claims + [s.taken])
  {
    hide TimelyRun;
    var s, a: Action<T> := states[|schedule|], Consume(c);
    states', schedule' := Checks(states, schedule, c);
    var s2 := states'[|schedule'|];
    assert s2.consumers[c := Claimed(s.First, s.taken)] == s.consumers[c := Claimed(s.First, s.taken)];
    states', schedule' := Then(states', schedule', a, Step(s2, a));
  }

  /** Consumer `c` goes on to copy it. */
  lemma Dequeues<T>(states: seq<State<T>>, schedule: seq<Action<T>>, c: nat)
    returns (states': seq<State<T>>, schedule': seq<Action<T>>)
    requires IsRun(states, schedule) && CanDequeue(states[|schedule|], c)
    ensures IsRun(states', schedule') && states'[0] == states[0]
    ensures TimelyRun(states, schedule) ==> TimelyRun(states', schedule')
    ensures var s := states[|schedule|];
            states'[|schedule'|] == s.(First := (s.First + 1) % |s.Memory|, taken := s.taken + 1,
                                       claims := s.claims + [s.taken],
                                       out := s.out + [(s.taken, s.Memory[s.First])])
  {
    hide TimelyRun;
    var s, a: Action<T> := states[|schedule|], Consume(c);
    states', schedule' := Claims(states, schedule, c);
    var s3 := states'[|schedule'|];
    assert s3.consumers[c := Waiting] == s.consumers;
    states', schedule' := Then(states', schedule', a, Step(s3, a));
  }

  // ---------- Copies ----------

  /** Every value copied out is the one published under its ticket. */
  ghost predicate CopiesRight<T>(s: State<T>) {
    forall k :: 0 <= k < |s.out| ==> s.out[k].0 < |s.sent| && s.out[k].1 == s.sent[s.out[k].0]
  }

  ghost predicate AllCopiesRight<T(!new)>(n: nat, c: nat) {
    forall states: seq<State<T>>, schedule: seq<Action<T>> ::
      IsRun(states, schedule) && TimelyRun(states, schedule) ==>
        |states[0].Memory| == n && |states[0].consumers| == c ==> CopiesRight(states[|schedule|])
  }

  /** Even in timely runs a copy is sure to be what was published if and only if there is one slot or at
      most one consumer: a claim frees the slot before it is copied. */
  lemma AllCopiesRightIff<T(!new)>(n: nat, c: nat, v: T, w: T)
    requires n > 0 && v != w
    ensures AllCopiesRight<T>(n, c) <==> n == 1 || c <= 1
  {
    if n == 1 || c <= 1 {
      forall states: seq<State<T>>, schedule: seq<Action<T>> |
        IsRun(states, schedule) && |states[0].Memory| == n && |states[0].consumers| == c
        ensures CopiesRight(states[|schedule|])
      {
        SmallRunInv(states, schedule, |schedule|);
      }
    } else {
      var states, schedule := OverwrittenCopy(n, c, v, w);
      assert !CopiesRight(states[|schedule|]);
    }
  }

  /** Consumer 0 claims the first value and is overtaken before it copies; the producer has come round and
      overwrites the slot. */
  lemma OverwrittenCopy<T>(n: nat, c: nat, v: T, w: T) returns (states: seq<State<T>>, schedule: seq<Action<T>>)
    requires n >= 2 && c >= 2 && v != w
    ensures IsRun(states, schedule) && TimelyRun(states, schedule)
    ensures |states[0].Memory| == n && |states[0].consumers| == c && !CopiesRight(states[|schedule|])
  {
    var s := FreshState(n, c, v);
    states, schedule := [s], [];
    assert IsRun(states, schedule) && TimelyRun(states, schedule);
    hide IsRun, TimelyRun;
    DivModUnique(1, n, 0, 1);
    states, schedule := Enqueues(states, schedule, v);
    states, schedule := Claims(states, schedule, 0);
    states, schedule := Laps(states, schedule, s, s.consumers[0 := Claimed(0, 0)], v);
    states, schedule := Enqueues(states, schedule, w);
    var s', a: Action<T> := states[|schedule|], Consume(0);
    states, schedule := Then(states, schedule, a, Step(s', a));
    assert states[|schedule|].out == s'.out + [(0, w)] && s'.sent[0] == v;
    var k := |s'.out|;
    assert states[|schedule|].out[k] == (0, w);
  }
}
