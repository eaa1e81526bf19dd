/** `StaticHashMap` and the rehash of `DHashMap` (Lib/HashMaps.h). */
module HashMaps {
  import opened Base
  import opened Ring
  import opened RobinHood
  import opened Sets

  datatype Option<+T> = None | Some(value: T)

  const NOT_FOUND: nat := U32 - 1

  datatype AddResult = AddResult(Index: nat, DoesExist: bool, IsMapFull: bool)

  /** `HashAndMod`: the home slot of a key. */
  function HomeOf<K>(hash: K -> nat, capacity: nat): K -> nat
    requires capacity > 0
  {
    k => FastModulo(hash(k), capacity)
  }

  lemma HomeInRange<K>(hash: K -> nat, capacity: nat, key: K)
    requires PowerOfTwo(capacity)
    ensures HomeOf(hash, capacity)(key) == FastModulo(hash(key), capacity) == hash(key) % capacity < capacity
  {
    FastModuloIsMod(hash(key), capacity);
  }

  lemma RoundedCapacity(capacity: nat)
    requires 0 < capacity <= 0x8000_0000
    ensures PowerOfTwo(CeilPow2(capacity)) && CeilPow2(capacity) <= 0x8000_0000
    ensures IsPowerOf2(capacity) ==> CeilPow2(capacity) == capacity
    ensures Pow2(31) == 0x8000_0000 && Pow2(32) == U32
  {
    Pow2Constants();
    CeilPow2Least(capacity);
    CeilPow2Bounded(capacity, 31);
    IsPowerOf2Correct(capacity);
    if IsPowerOf2(capacity) {
      CeilPow2Fixed(capacity);
    }
  }

  /** The capacity times the load factor, cut to a whole number. Capacities are powers of two, so the
      product of floats is exact and only the truncation remains. */
  function LoadLimit(capacity: nat, loadFactor: real): (r: nat)
    requires 0.0 < loadFactor <= 1.0
    ensures r <= capacity && r as real <= capacity as real * loadFactor < r as real + 1.0
  {
    assert 0.0 <= capacity as real * loadFactor <= capacity as real;
    (capacity as real * loadFactor).Floor
  }

  lemma EmptyRing<K, V>(b: seq<Bucket<K, V>>, home: K -> nat)
    requires |b| > 0 && forall i :: 0 <= i < |b| ==> !b[i].IsUsed && b[i].ProbeLength == 0
    ensures WellFormed(b, home) && Contents(b) == map[] && UsedSlots(b) == {}
  {
    assert Stop(b[0]);
  }

  /** On a non-empty table, a goal for the search of `Remove`. */
  lemma SearchGoal<K, V>(b: seq<Bucket<K, V>>, key: K) returns (goal: nat)
    requires Unique(b) && (|UsedSlots(b)| < |b| || key in Contents(b))
    ensures goal < |b| && (!b[goal].IsUsed || b[goal].Key == key)
  {
    UsedSlotsBounded(b);
    ContentsKeys(b, key);
    goal :| goal < |b| && (!b[goal].IsUsed || b[goal].Key == key);
  }

  lemma UnusedSlot<K, V>(b: seq<Bucket<K, V>>) returns (gap: nat)
    requires |UsedSlots(b)| < |b|
    ensures gap < |b| && !b[gap].IsUsed
  {
    UsedSlotsBounded(b);
    gap :| gap < |b| && !b[gap].IsUsed;
  }

  lemma CountZero<K, V>(b: seq<Bucket<K, V>>)
    requires Unique(b) && |UsedSlots(b)| == 0
    ensures Contents(b) == map[]
  {
    assert forall i :: 0 <= i < |b| && b[i].IsUsed ==> i in UsedSlots(b);
  }

  /** The rounding at the start of `Init`. */
  method RoundUp(capacity: nat) returns (rounded: nat)
    requires 0 < capacity <= 0x8000_0000
    ensures rounded == CeilPow2(capacity) && PowerOfTwo(rounded) && 0 < rounded <= 0x8000_0000
  {
    RoundedCapacity(capacity);
    rounded := capacity;
    if !IsPowerOf2(capacity) {
      rounded := AlignPowTwoCeil(capacity, 32);
    }
  }

  class StaticHashMap<K(==), V> {
    const hash: K -> nat
    const Buckets: array<Bucket<K, V>>
    const Capacity: nat
    const MaxCount: nat
    var Count: nat

    ghost function Home(): K -> nat
      requires Capacity > 0
    {
      HomeOf(hash, Capacity)
    }

    ghost function Slots(): seq<Bucket<K, V>>
      requires Capacity <= Buckets.Length
      reads Buckets
    {
      Buckets[..Capacity]
    }

    /** The memory behind the table, which no operation touches. */
    ghost function Rest(): seq<Bucket<K, V>>
      requires Capacity <= Buckets.Length
      reads Buckets
    {
      Buckets[Capacity..]
    }

    ghost predicate Valid()
      reads this, Buckets
    {
      && PowerOfTwo(Capacity) && 0 < Capacity <= Buckets.Length && Capacity < NOT_FOUND
      && Count <= MaxCount <= Capacity
      && WellFormed(Slots(), Home())
      && Count == |UsedSlots(Slots())|
    }

    /** The abstract map. */
    ghost function Map(): map<K, V>
      requires Valid()
      reads this, Buckets
    {
      Contents(Slots())
    }

    /** The table takes the first part of `memory`, which the caller has zeroed. */
    constructor Init(hash: K -> nat, memory: array<Bucket<K, V>>, capacity: nat, loadFactor: real)
      requires 0 < capacity <= 0x8000_0000 && 0.0 < loadFactor <= 1.0
      requires CeilPow2(capacity) <= memory.Length
      requires forall i :: 0 <= i < CeilPow2(capacity) ==> !memory[i].IsUsed && memory[i].ProbeLength == 0
      ensures Valid() && Map() == map[] && Count == 0
      ensures this.hash == hash && Buckets == memory && Capacity == CeilPow2(capacity)
      ensures MaxCount == LoadLimit(Capacity, loadFactor)
    {
      hide CeilPow2, PowerOfTwo, IsPowerOf2, WellFormed, Contents, UsedSlots, HomeOf, LoadLimit;
      var rounded := RoundUp(capacity);
      this.hash := hash;
      Buckets := memory;
      Capacity := rounded;
      Count := 0;
      MaxCount := LoadLimit(rounded, loadFactor);
      new;
      EmptyRing(Slots(), Home());
    }

    /** The next entry leaves every probe length within `u16`: see `RobinHood.ProbesFitIff`. */
    predicate ProbesStayFit()
      reads this
    {
      Count == MaxCount || Count < U16
    }

    /** Adds a binding, displacing richer buckets. A full table answers first, even for a stored key. */
    method Add(key: K, value: V) returns (res: AddResult, ghost probes: nat)
      requires Valid() && ProbesStayFit()
      modifies this`Count, Buckets
      ensures Valid() && Rest() == old(Rest()) && probes <= Capacity
      ensures old(Count) == MaxCount ==>
        res == AddResult(NOT_FOUND, false, true) && Slots() == old(Slots()) && Count == old(Count)
      ensures old(Count) < MaxCount && key in old(Map()) ==>
        Slots() == old(Slots()) && Count == old(Count) && res == AddResult(res.Index, true, false)
      ensures old(Count) < MaxCount && key !in old(Map()) ==>
        Map() == old(Map())[key := value] && Count == old(Count) + 1 && res == AddResult(res.Index, false, false)
      ensures old(Count) < MaxCount ==>
        res.Index < Capacity && Slots()[res.Index].IsUsed && Slots()[res.Index].Key == key
    {
      hide Inserting, WellFormed, Contents, UsedSlots, Unique, Placed, Chain, HomeOf, FastModulo, PowerOfTwo;
      probes := 0;
      if Count == MaxCount {
        return AddResult(NOT_FOUND, false, true), probes;
      }
      var swapBucket := Bucket(key, 0, true, value);
      var insertedIdx, probeLength: nat := NOT_FOUND, 0;
      HomeInRange(hash, Capacity, key);
      var idx := FastModulo(hash(key), Capacity);
      ghost var b0, b, home, n, h := Slots(), Slots(), Home(), Capacity, idx;
      ghost var gap := UnusedSlot(b);
      ghost var at := 0;
      ghost var x := swapBucket;  // the carried bucket, with its current probe length
      InsertingStarts(b, home, x, gap);
      while true
        invariant h == home(key) && probes < n && (insertedIdx != NOT_FOUND ==> at < probes)
        invariant b == Slots() && Rest() == old(Rest()) && Count == old(Count) == |UsedSlots(b0)|
        invariant x == swapBucket.(ProbeLength := probeLength)
        invariant Inserting(b0, b, home, key, value, x, probes, gap, insertedIdx != NOT_FOUND, at)
        invariant idx == At(h, probes, n)
        invariant insertedIdx != NOT_FOUND ==> insertedIdx == At(h, at, n)
        decreases n - probes
      {
        var bucket := Buckets[idx];
        assert bucket == b[idx];
        if !bucket.IsUsed {
          InsertingStores(b0, b, home, key, value, x, probes, gap, insertedIdx != NOT_FOUND, at);
          if insertedIdx == NOT_FOUND {
            insertedIdx := idx;
          }
          Buckets[idx] := swapBucket.(ProbeLength := probeLength);
          Count := Count + 1;
          probes := probes + 1;
          assert Slots() == b[idx := x];
          return AddResult(insertedIdx, false, false), probes;
        } else {
          if bucket.Key == swapBucket.Key {
            InsertingFound(b0, b, home, key, value, x, probes, gap, insertedIdx != NOT_FOUND, at);
            probes := probes + 1;
            return AddResult(idx, true, false), probes;
          }
          if probeLength > bucket.ProbeLength {
            InsertingSwaps(b0, b, home, key, value, x, probes, gap, insertedIdx != NOT_FOUND, at);
            if insertedIdx == NOT_FOUND {
              insertedIdx := idx;
              at := probes;
            }
            swapBucket := swapBucket.(ProbeLength := probeLength);
            probeLength := bucket.ProbeLength;
            Buckets[idx] := swapBucket;
            swapBucket := bucket;
            b, x := b[idx := x], b[idx].(ProbeLength := b[idx].ProbeLength + 1);
          } else {
            InsertingPasses(b0, b, home, key, value, x, probes, gap, insertedIdx != NOT_FOUND, at);
            x := x.(ProbeLength := x.ProbeLength + 1);
          }
          assert x.ProbeLength == probeLength + 1;
          assert x.ProbeLength <= Count < U16;
          probeLength := (probeLength + 1) % U16;
          InsertingBounds(b0, b, home, key, value, x, probes + 1, gap, insertedIdx != NOT_FOUND, at);
          idx := idx + 1;
          if idx == Capacity {
            idx := 0;
          }
          probes := probes + 1;
        }
      }
    }

    /** Overwrites the value of a stored key; an absent key is added, and `false` is returned. */
    method Replace(key: K, value: V) returns (replaced: bool)
      requires Valid() && ProbesStayFit()
      modifies this`Count, Buckets
      ensures Valid() && Rest() == old(Rest())
      ensures replaced <==> old(Count) < MaxCount && key in old(Map())
      ensures old(Count) < MaxCount ==> Map() == old(Map())[key := value]
      ensures old(Count) == MaxCount ==> Slots() == old(Slots()) && Count == old(Count)
    {
      var res, _ := Add(key, value);
      if res.DoesExist {
        Write(res.Index, value);
        return true;
      }
      return false;
    }

    /** Looks a key up with the early exit, and returns the slot whose value the pointer addresses. At
        most `Capacity + 1` probes, even on a full table. */
    method Get(key: K) returns (r: Option<nat>, ghost probes: nat)
      requires Valid()
      ensures r.Some? <==> key in Map()
      ensures r.Some? ==>
        && r.value < Capacity && Slots()[r.value].IsUsed && Slots()[r.value].Key == key
        && Slots()[r.value].Value == Map()[key]
      ensures probes <= Capacity + 1
    {
      probes := 0;
      ghost var b, home, n := Slots(), Home(), Capacity;
      if Count == 0 {
        CountZero(b);
        return None, probes;
      }
      var probeLength: nat := 0;
      HomeInRange(hash, Capacity, key);
      var idx := FastModulo(hash(key), Capacity);
      while true
        invariant probeLength == probes <= n && idx == At(home(key), probes, n)
        invariant forall x :: 0 <= x < probes ==> b[At(home(key), x, n)].Key != key
        decreases n - probes
      {
        var bucket := Buckets[idx];
        assert bucket == b[idx];
        if !bucket.IsUsed || probeLength > bucket.ProbeLength {
          EarlyExit(b, home, key, probes);
          ContentsKeys(b, key);
          probes := probes + 1;
          return None, probes;
        } else if key == bucket.Key {
          ContentsAt(b, idx);
          probes := probes + 1;
          return Some(idx), probes;
        } else {
          probeLength := probeLength + 1;
          idx := idx + 1;
          if idx == Capacity {
            idx := 0;
          }
          probes := probes + 1;
        }
      }
    }

    /** A write through the pointer that `Get` returned rebinds exactly that key. */
    method Write(slot: nat, value: V)
      requires Valid() && slot < Capacity && Slots()[slot].IsUsed
      modifies Buckets
      ensures Valid() && Rest() == old(Rest()) && Map() == old(Map())[old(Slots()[slot].Key) := value]
    {
      ghost var b := Slots();
      ghost var x := b[slot].(Value := value);
      OverwriteValue(b, Home(), slot, x);
      Buckets[slot] := Buckets[slot].(Value := value);
      assert Slots() == b[slot := x];
    }

    method Clear()
      requires Valid()
      modifies this`Count, Buckets
      ensures Valid() && Rest() == old(Rest()) && Map() == map[] && Count == 0
    {
      for i := 0 to Capacity
        invariant forall j :: 0 <= j < i ==> !Buckets[j].IsUsed && Buckets[j].ProbeLength == 0
        invariant Rest() == old(Rest())
      {
        Buckets[i] := Buckets[i].(ProbeLength := 0, IsUsed := false);
      }
      Count := 0;
      EmptyRing(Slots(), Home());
    }

    /** Whether the search of `Remove` reaches an exit: see `SearchStopsIff`. */
    ghost predicate SearchStops(key: K)
      requires Valid()
      reads this, Buckets
    {
      Count < Capacity || key in Map()
    }

    /** Deletes a binding and shifts the following run back by one slot. */
    method Remove(key: K) returns (removed: bool)
      requires Valid() && (Count == 0 || SearchStops(key))
      modifies this`Count, Buckets
      ensures Valid() && Rest() == old(Rest())
      ensures removed <==> key in old(Map())
      ensures Map() == old(Map()) - {key}
      ensures !removed ==> Slots() == old(Slots()) && Count == old(Count)
      ensures removed ==> Count == old(Count) - 1
    {
      ghost var b, home, n := Slots(), Home(), Capacity;
      if Count == 0 {
        CountZero(b);
        return false;
      }
      HomeInRange(hash, Capacity, key);
      var index := FastModulo(hash(key), Capacity);
      ghost var goal := SearchGoal(b, key);
      ghost var d := 0;
      while true
        invariant b == Slots() && Count == old(Count)
        invariant d <= Dist(home(key), goal, n) && index == At(home(key), d, n)
        invariant forall x :: 0 <= x < d ==> b[At(home(key), x, n)].Key != key
        decreases n - d
      {
        var bucket := Buckets[index];
        assert bucket == b[index];
        if !bucket.IsUsed {
          EarlyExit(b, home, key, d);
          ContentsKeys(b, key);
          return false;
        } else {
          if key == bucket.Key {
            ContentsAt(b, index);
            ShiftBack(index);
            return true;
          } else {
            index := index + 1;
            if index == Capacity {
              index := 0;
            }
            d := d + 1;
          }
        }
      }
    }

    /** The inner loop of `Remove`. */
    method ShiftBack(found: nat)
      requires Valid() && found < Capacity && Slots()[found].IsUsed
      modifies this`Count, Buckets
      ensures Valid() && Rest() == old(Rest()) && Count == old(Count) - 1
      ensures Map() == old(Map()) - {old(Slots()[found].Key)}
    {
      hide Shifting, WellFormed, Contents, UsedSlots, Unique, Placed, Chain, Without, HomeOf;
      ghost var home, n := Home(), Capacity;
      ghost var b := Slots();  // the ring before the bucket at `index` was moved away
      ghost var rest := Map() - {b[found].Key};
      ghost var far := ShiftStarts(b, home, found);
      ghost var t := 0;
      var index := found;
      while true
        invariant Count == old(Count) == |UsedSlots(b)| && |b| == n == Capacity
        invariant t < far && index == At(found, t, n) && Stop(b[At(found, far, n)])
        invariant Shifting(b, home, index, rest)
        invariant forall i :: 0 <= i < n && i != index ==> Buckets[i] == b[i]
        invariant n == 1 ==> Buckets[0] == b[0]
        invariant Rest() == old(Rest())
        decreases n - t
      {
        var lastIndex := index;
        index := index + 1;
        if index == Capacity {
          index := 0;
        }
        var nextBucket := Buckets[index];
        assert nextBucket == b[Next(lastIndex, n)];
        if !nextBucket.IsUsed || nextBucket.ProbeLength == 0 {
          ghost var x := Buckets[lastIndex].(ProbeLength := 0, IsUsed := false);
          ShiftEnds(b, home, lastIndex, rest, x);
          Buckets[lastIndex] := Buckets[lastIndex].(ProbeLength := 0, IsUsed := false);
          Count := Count - 1;
          assert Slots() == b[lastIndex := x];
          return;
        } else {
          assert n > 1;
          ShiftStep(b, home, lastIndex, rest);
          nextBucket := nextBucket.(ProbeLength := nextBucket.ProbeLength - 1);
          Buckets[index] := nextBucket;
          Buckets[lastIndex] := nextBucket;
          b := b[lastIndex := Closer(b[index])];
          t := t + 1;
        }
      }
    }
  }

  lemma OverwriteValue<K, V>(b: seq<Bucket<K, V>>, home: K -> nat, i: nat, x: Bucket<K, V>)
    requires WellFormed(b, home) && i < |b| && b[i].IsUsed
    requires x == b[i].(Value := x.Value)
    ensures WellFormed(b[i := x], home) && UsedSlots(b[i := x]) == UsedSlots(b)
    ensures Contents(b[i := x]) == Contents(b)[x.Key := x.Value]
  {
    var b' := b[i := x];
    SwapContents(b, i, x);
    RebindKey(Contents(b), x.Key, x.Value);
    assert UsedSlots(b') == UsedSlots(b);
    hide Contents, Unique, UsedSlots;
    forall j | 0 <= j < |b| ensures ChainAt(b', j) {
      assert ChainAt(b, j);
    }
    var s :| 0 <= s < |b| && Stop(b[s]);
    assert Stop(b'[s]);
  }

  lemma RebindKey<K, V>(m: map<K, V>, k: K, v: V)
    ensures (m - {k})[k := v] == m[k := v]
  {
  }

  /** The slot the search of `Remove` inspects at step `d`, for any number of steps. */
  ghost function Inspected<K>(home: K -> nat, key: K, d: nat, n: nat): nat
    requires home(key) < n
    ensures Inspected(home, key, d, n) < n
  {
    if d == 0 then home(key) else Next(Inspected(home, key, d - 1, n), n)
  }

  ghost predicate ExitsAt<K, V>(b: seq<Bucket<K, V>>, home: K -> nat, key: K, d: nat)
    requires home(key) < |b|
  {
    var x := b[Inspected(home, key, d, |b|)]; !x.IsUsed || x.Key == key
  }

  /** `Remove` checks neither probe lengths nor a step limit: on a non-empty table its search ends
      if and only if some slot is unused or the key is stored. */
  lemma SearchStopsIff<K, V>(m: StaticHashMap<K, V>, key: K)
    requires m.Valid()
    ensures m.Home()(key) < m.Capacity
    ensures m.SearchStops(key) <==> exists d: nat :: ExitsAt(m.Slots(), m.Home(), key, d)
  {
    var b, home := m.Slots(), m.Home();
    HomeInRange(m.hash, m.Capacity, key);
    UsedSlotsBounded(b);
    ContentsKeys(b, key);
    if m.SearchStops(key) {
      var goal: nat :| goal < |b| && (!b[goal].IsUsed || b[goal].Key == key);
      InspectedAt(home, key, Dist(home(key), goal, |b|), |b|);
      assert ExitsAt(b, home, key, Dist(home(key), goal, |b|));
    }
  }

  lemma {:induction false} InspectedAt<K>(home: K -> nat, key: K, d: nat, n: nat)
    requires home(key) < n && d < n
    ensures Inspected(home, key, d, n) == At(home(key), d, n)
  {
    if d > 0 {
      InspectedAt(home, key, d - 1, n);
    }
  }

  /** Such tables are reached: one slot, load factor 1, one entry. The search for another key inspects
      that slot for ever. */
  method FullTable<K(==), V>(hash: K -> nat, blank: Bucket<K, V>, key: K, value: V, other: K)
    returns (table: StaticHashMap<K, V>)
    requires !blank.IsUsed && blank.ProbeLength == 0 && other != key
    ensures fresh(table) && table.Valid() && table.Count > 0 && table.Map() == map[key := value]
    ensures table.Home()(other) < table.Capacity && forall d: nat :: !ExitsAt(table.Slots(), table.Home(), other, d)
  {
    hide WellFormed, Contents, UsedSlots, HomeOf;
    var memory := new Bucket<K, V>[1](_ => blank);
    table := new StaticHashMap<K, V>.Init(hash, memory, 1, 1.0);
    var _, _ := table.Add(key, value);
    SearchStopsIff(table, other);
  }

  // ---------- Whole runs ----------

  datatype Op<K, V> = Add(key: K, value: V) | Replace(key: K, value: V) | Remove(key: K) | Clear

  /** What an operation means for an abstract map that holds at most `limit` bindings. */
  function Meaning<K, V>(op: Op<K, V>, m: map<K, V>, limit: nat): map<K, V> {
    match op
    case Add(k, v) => if |m| == limit || k in m then m else m[k := v]
    case Replace(k, v) => if |m| == limit then m else m[k := v]
    case Remove(k) => m - {k}
    case Clear => map[]
  }

  function MeaningOfRun<K, V>(ops: seq<Op<K, V>>, m: map<K, V>, limit: nat): map<K, V> {
    if ops == [] then m else MeaningOfRun(ops[1..], Meaning(ops[0], m, limit), limit)
  }

  /** No `Remove` of the run searches a full table for an absent key, and nothing is added that could
      take a probe length beyond `u16`. */
  predicate Runs<K, V>(ops: seq<Op<K, V>>, m: map<K, V>, limit: nat, capacity: nat) {
    ops != [] ==>
      && (ops[0].Remove? ==> |m| == 0 || |m| < capacity || ops[0].key in m)
      && (ops[0].Add? || ops[0].Replace? ==> |m| == limit || |m| < U16)
      && Runs(ops[1..], Meaning(ops[0], m, limit), limit, capacity)
  }

  /** A call refines the abstract operation. */
  method Perform<K, V>(table: StaticHashMap<K, V>, op: Op<K, V>)
    requires table.Valid() && Runs([op], table.Map(), table.MaxCount, table.Capacity)
    modifies table`Count, table.Buckets
    ensures table.Valid() && table.Map() == Meaning(op, old(table.Map()), table.MaxCount)
  {
    hide WellFormed, Contents, UsedSlots, PowerOfTwo, HomeOf, Unique;
    CountIsSize(table);
    match op {
      case Add(k, v) => var _, _ := table.Add(k, v);
      case Replace(k, v) => var _ := table.Replace(k, v);
      case Remove(k) => var _ := table.Remove(k);
      case Clear => table.Clear();
    }
  }

  /** A table refines the abstract map through every run of its operations. */
  method Run<K, V>(table: StaticHashMap<K, V>, ops: seq<Op<K, V>>)
    requires table.Valid() && Runs(ops, table.Map(), table.MaxCount, table.Capacity)
    modifies table`Count, table.Buckets
    ensures table.Valid()
    ensures table.Map() == MeaningOfRun(ops, old(table.Map()), table.MaxCount)
  {
    hide WellFormed, Contents, UsedSlots, PowerOfTwo;
    for i := 0 to |ops|
      invariant table.Valid() && Runs(ops[i..], table.Map(), table.MaxCount, table.Capacity)
      invariant MeaningOfRun(ops[i..], table.Map(), table.MaxCount)
             == MeaningOfRun(ops, old(table.Map()), table.MaxCount)
    {
      assert ops[i..][1..] == ops[i + 1..];
      Perform(table, ops[i]);
    }
  }

  lemma CountIsSize<K, V>(table: StaticHashMap<K, V>)
    requires table.Valid()
    ensures table.Count == |table.Map()|
  {
    ContentsSize(table.Slots());
  }

  // ---------- Growing ----------

  /** `0.85f` as the float it rounds to. */
  const LOAD_FACTOR: real := 14260634.0 / 16777216.0

  lemma LoadLimitGrows(c: nat, d: nat)
    requires c <= d
    ensures LoadLimit(c, LOAD_FACTOR) == c * 14260634 / 16777216
    ensures LoadLimit(c, LOAD_FACTOR) <= LoadLimit(d, LOAD_FACTOR)
    ensures c >= 2 ==> 1 <= LoadLimit(c, LOAD_FACTOR) < c
  {
    var r := LoadLimit(c, LOAD_FACTOR);
    assert r as real <= c as real * LOAD_FACTOR < r as real + 1.0;
    assert (r * 16777216) as real <= (c * 14260634) as real;
    assert (c * 14260634) as real < ((r + 1) * 16777216) as real;
  }

  /** The bindings of the first `i` slots grow by slot `i`. */
  lemma PrefixContents<K, V>(b: seq<Bucket<K, V>>, i: nat)
    requires Unique(b) && i < |b| && Unique(b[..i])
    ensures Unique(b[..i + 1]) && Contents(b[..i + 1]) ==
      if b[i].IsUsed then Contents(b[..i])[b[i].Key := b[i].Value] else Contents(b[..i])
    ensures b[i].IsUsed ==> b[i].Key !in Contents(b[..i])
  {
    var p, q := b[..i], b[..i + 1];
    var m, m' := Contents(p), Contents(q);
    forall k | k in m ensures k in m' && m'[k] == m[k] {
      var j :| 0 <= j < i && p[j].IsUsed && p[j].Key == k;
      assert q[j] == p[j];
    }
    forall k | k in m' ensures k in m || (b[i].IsUsed && k == b[i].Key) {
      var j :| 0 <= j <= i && q[j].IsUsed && q[j].Key == k;
      assert j < i ==> p[j] == q[j];
    }
    if b[i].IsUsed {
      ContentsAt(q, i);
    }
  }

  lemma EmptyContents<K, V>(b: seq<Bucket<K, V>>)
    requires |b| == 0
    ensures Unique(b) && Contents(b) == map[]
  {
  }

  lemma PrefixSize<K, V>(b: seq<Bucket<K, V>>, i: nat)
    requires Unique(b) && i < |b|
    ensures Unique(b[..i]) && Unique(b[..i + 1])
    ensures |UsedSlots(b[..i])| + (if b[i].IsUsed then 1 else 0) <= |UsedSlots(b)|
  {
    var more := if b[i].IsUsed then {i} else {};
    SubsetCard(UsedSlots(b[..i]) + more, UsedSlots(b));
  }

  /** The rehash loop: with room for every entry of `table`, none is refused or found twice. */
  method Rehash<K, V>(table: StaticHashMap<K, V>, tempMap: StaticHashMap<K, V>)
    requires table.Valid() && tempMap.Valid() && table != tempMap && table.Buckets != tempMap.Buckets
    requires tempMap.Map() == map[] && table.Count <= tempMap.MaxCount && table.Count <= U16
    modifies tempMap`Count, tempMap.Buckets
    ensures tempMap.Valid() && tempMap.Map() == table.Map() && tempMap.Count == table.Count
  {
    hide Contents, UsedSlots, PowerOfTwo;
    ghost var b := table.Slots();
    EmptyContents(b[..0]);
    for i := 0 to table.Capacity
      invariant tempMap.Valid() && b == table.Slots() && Unique(b[..i])
      invariant tempMap.Map() == Contents(b[..i])
    {
      PrefixSize(b, i);
      PrefixContents(b, i);
      CountIsSize(tempMap);
      ContentsSize(b[..i]);
      if table.Buckets[i].IsUsed {
        var res, _ := tempMap.Add(table.Buckets[i].Key, table.Buckets[i].Value);
        assert !res.IsMapFull && !res.DoesExist;
      }
    }
    assert b[..table.Capacity] == b;
    CountIsSize(table);
    CountIsSize(tempMap);
  }

  method NewTable<K, V>(hash: K -> nat, c: nat, blank: Bucket<K, V>) returns (table: StaticHashMap<K, V>)
    requires 0 < c <= 0x8000_0000 && CeilPow2(c) == c && !blank.IsUsed && blank.ProbeLength == 0
    ensures fresh(table) && fresh(table.Buckets) && table.Valid() && table.Map() == map[]
    ensures table.hash == hash && table.Capacity == c && table.MaxCount == LoadLimit(c, LOAD_FACTOR)
    ensures table.Count == 0
  {
    var memory := new Bucket<K, V>[c](_ => blank);
    table := new StaticHashMap<K, V>.Init(hash, memory, c, LOAD_FACTOR);
  }

  /** The bucket count that a request for `capacity` asks for, as a `u32`. */
  function Requested(capacity: nat): nat {
    CeilPow2(if capacity == 0 then 2 else capacity) % U32
  }

  class DHashMap<K(==), V> {
    const hash: K -> nat
    var Table: StaticHashMap?<K, V>

    ghost predicate Valid()
      reads this, Table, if Table == null then {} else {Table.Buckets}
    {
      Table != null ==>
        Table.Valid() && Table.hash == hash && Table.MaxCount == LoadLimit(Table.Capacity, LOAD_FACTOR)
    }

    ghost function Map(): map<K, V>
      requires Valid()
      reads this, Table, if Table == null then {} else {Table.Buckets}
    {
      if Table == null then map[] else Table.Map()
    }

    function CurrentCapacity(): nat
      reads this
    {
      if Table == null then 0 else Table.Capacity
    }

    /** Rehashes into a larger table, whose memory the allocator hands out filled with `blank`. The bound
        on the entries keeps probe lengths within `u16`. No rehashed entry meets a full table. */
    method Resize(capacity: nat, blank: Bucket<K, V>)
      requires Valid() && capacity < U32 && (Table != null ==> Table.Count <= U16)
      requires !blank.IsUsed && blank.ProbeLength == 0
      modifies this
      ensures Valid() && Map() == old(Map())
      ensures old(Table) != null ==> Table != null && Table.Count == old(Table.Count)
      ensures Requested(capacity) <= old(CurrentCapacity()) ==> Table == old(Table)
      ensures Requested(capacity) > old(CurrentCapacity()) ==>
        Table != null && fresh(Table) && Table.Capacity == Requested(capacity)
      ensures old(Table) != null ==> Table != null && Table.MaxCount >= old(Table.MaxCount)
      ensures CurrentCapacity() == Larger(old(CurrentCapacity()), Requested(capacity))
    {
      hide WellFormed, Contents, UsedSlots, LoadLimit, CeilPow2, IsPowerOf2, PowerOfTwo, Pow2, HomeOf, Unique;
      hide StaticHashMap.Slots, StaticHashMap.Home;
      var c := if capacity == 0 then 2 else capacity;
      RoundedRequest(c);
      if !IsPowerOf2(c) {
        var rounded := AlignPowTwoCeil(c, 64);
        c := rounded % U32;
      }
      if c <= CurrentCapacity() {
        return;
      }
      LoadLimitGrows(CurrentCapacity(), c);
      var tempMap := NewTable(hash, c, blank);
      if Table != null {
        Rehash(Table, tempMap);
      }
      Table := tempMap;
    }
  }

  function Larger(a: nat, b: nat): nat {
    if a < b then b else a
  }

  /** A request asks for the least power of two that reaches it, or for two buckets. Above 2^31 there is
      none among the 32-bit words, and it asks for nothing. */
  lemma RequestedIs(capacity: nat)
    requires capacity < U32
    ensures capacity == 0 ==> Requested(capacity) == 2
    ensures 0 < capacity <= 0x8000_0000 ==> LeastPowerOfTwo(capacity, Requested(capacity))
    ensures forall r :: 0 < capacity <= 0x8000_0000 && LeastPowerOfTwo(capacity, r) ==> Requested(capacity) == r
    ensures capacity > 0x8000_0000 ==> Requested(capacity) == 0
  {
    var c := if capacity == 0 then 2 else capacity;
    assert CeilPow2(2) == 2;
    RoundedWord(c);
    CeilPow2Least(c);
    hide CeilPow2, PowerOfTwo, LeastPowerOfTwo;
    if c <= 0x8000_0000 {
      RoundedCapacity(c);
      forall r | LeastPowerOfTwo(c, r) ensures r == CeilPow2(c) {
        LeastIsUnique(c, r, CeilPow2(c));
      }
    } else {
      LeastReaches(c, CeilPow2(c));
    }
  }

  lemma LeastReaches(x: nat, r: nat)
    requires LeastPowerOfTwo(x, r)
    ensures x <= r
  {
  }

  lemma LeastIsUnique(x: nat, r: nat, r': nat)
    requires LeastPowerOfTwo(x, r) && LeastPowerOfTwo(x, r')
    ensures r == r'
  {
  }

  /** Rounding a 32-bit word up gives a 32-bit word or 2^32. */
  lemma RoundedWord(c: nat)
    requires 0 < c < U32
    ensures PowerOfTwo(CeilPow2(c)) && (CeilPow2(c) == U32 || 0 < CeilPow2(c) <= 0x8000_0000)
  {
    Pow2Constants();
    CeilPow2Least(c);
    CeilPow2Bounded(c, 32);
    hide CeilPow2, Pow2;
    var j: nat :| CeilPow2(c) == Pow2(j);
    if j < 32 {
      Pow2Monotone(j, 31);
    } else {
      Pow2Monotone(32, j);
    }
  }

  lemma RoundedRequest(c: nat)
    requires 0 < c < U32
    ensures c <= Pow2(63) && Pow2(64) == U64 && (IsPowerOf2(c) ==> CeilPow2(c) % U32 == c)
    ensures var r := CeilPow2(c) % U32; r == 0 || (r <= 0x8000_0000 && CeilPow2(r) == r)
  {
    hide CeilPow2, Pow2, PowerOfTwo, IsPowerOf2;
    Pow2Constants();
    RoundedWord(c);
    CeilPow2Fixed(CeilPow2(c));
    IsPowerOf2Correct(c);
    if IsPowerOf2(c) {
      CeilPow2Fixed(c);
    }
  }
}
