/** The circular layout behind `StaticHashMap`: what a well-formed bucket ring is, and what one
    step of displacement insertion or of backward-shift deletion does to it. */
module RobinHood {
  import opened Ring
  import opened Sets

  datatype Bucket<K, V> = Bucket(Key: K, ProbeLength: nat, IsUsed: bool, Value: V)

  /** Every stored probe length is the true circular distance from the key's home slot; that of an
      unused slot is zero. */
  ghost predicate Placed<K, V>(b: seq<Bucket<K, V>>, home: K -> nat) {
    forall i :: 0 <= i < |b| ==>
      if b[i].IsUsed then home(b[i].Key) < |b| && b[i].ProbeLength == Dist(home(b[i].Key), i, |b|)
      else b[i].ProbeLength == 0
  }

  ghost predicate ChainAt<K, V>(b: seq<Bucket<K, V>>, i: nat)
    requires i < |b|
  {
    b[i].IsUsed && b[i].ProbeLength > 0 ==>
      var p := Prev(i, |b|); b[p].IsUsed && b[p].ProbeLength + 1 >= b[i].ProbeLength
  }

  /** A slot displaced by `p > 0` follows a used slot displaced by at least `p - 1`. */
  ghost predicate Chain<K, V>(b: seq<Bucket<K, V>>) {
    forall i :: 0 <= i < |b| ==> ChainAt(b, i)
  }

  ghost predicate Unique<K, V>(b: seq<Bucket<K, V>>) {
    forall i, j :: 0 <= i < j < |b| && b[i].IsUsed && b[j].IsUsed ==> b[i].Key != b[j].Key
  }

  /** A slot at which backward shifting stops. */
  predicate Stop<K, V>(bucket: Bucket<K, V>) {
    !bucket.IsUsed || bucket.ProbeLength == 0
  }

  ghost predicate WellFormed<K, V>(b: seq<Bucket<K, V>>, home: K -> nat) {
    && Placed(b, home)
    && Chain(b)
    && Unique(b)
    && (exists i :: 0 <= i < |b| && Stop(b[i]))
  }

  /** The key-value map that a bucket ring stands for. */
  ghost function Contents<K, V>(b: seq<Bucket<K, V>>): (m: map<K, V>)
    requires Unique(b)
  {
    map i | 0 <= i < |b| && b[i].IsUsed :: b[i].Key := b[i].Value
  }

  ghost function UsedSlots<K, V>(b: seq<Bucket<K, V>>): set<nat> {
    set i: nat | i < |b| && b[i].IsUsed
  }

  ghost predicate Absent<K, V>(b: seq<Bucket<K, V>>, key: K) {
    forall i :: 0 <= i < |b| && b[i].IsUsed ==> b[i].Key != key
  }

  // ---------- The chain ----------

  /** Walking back `d` steps from a slot with probe length at least `d` meets only used slots. */
  lemma {:induction false} ChainBack<K, V>(b: seq<Bucket<K, V>>, i: nat, d: nat)
    requires Chain(b) && i < |b| && b[i].IsUsed && d <= b[i].ProbeLength && d < |b|
    ensures var j := if d <= i then i - d else i + |b| - d;
            b[j].IsUsed && b[j].ProbeLength + d >= b[i].ProbeLength
  {
    if d > 0 {
      ChainBack(b, i, d - 1);
      var j := if d - 1 <= i then i - (d - 1) else i + |b| - (d - 1);
      assert ChainAt(b, j);
    }
  }

  /** A stored key is reached from its home without meeting an unused slot or a shorter probe. */
  lemma PathToKey<K, V>(b: seq<Bucket<K, V>>, home: K -> nat, s: nat, d: nat)
    requires Placed(b, home) && Chain(b) && s < |b| && b[s].IsUsed
    requires d <= b[s].ProbeLength
    ensures home(b[s].Key) < |b| && b[s].ProbeLength < |b|
    ensures var i := At(home(b[s].Key), d, |b|); b[i].IsUsed && d <= b[i].ProbeLength
  {
    ChainBack(b, s, b[s].ProbeLength - d);
  }

  /** The early exit never misses: a search that has compared the keys at distances below `d`
      from home, and meets an unused slot or a shorter probe at `d`, proves the key absent. */
  lemma EarlyExit<K, V>(b: seq<Bucket<K, V>>, home: K -> nat, key: K, d: nat)
    requires Placed(b, home) && Chain(b) && home(key) < |b| && d <= |b|
    requires forall x :: 0 <= x < d ==> b[At(home(key), x, |b|)].Key != key
    requires d == |b| || (var i := At(home(key), d, |b|); !b[i].IsUsed || d > b[i].ProbeLength)
    ensures Absent(b, key)
  {
    forall s | 0 <= s < |b| && b[s].IsUsed
      ensures b[s].Key != key
    {
      if b[s].Key == key {
        assert At(home(key), b[s].ProbeLength, |b|) == s;
        if d <= b[s].ProbeLength {
          PathToKey(b, home, s, d);
        }
      }
    }
  }

  /** A probe never spans an unused slot. */
  lemma ProbeBeforeGap<K, V>(b: seq<Bucket<K, V>>, i: nat, gap: nat)
    requires Chain(b) && i < |b| && gap < |b| && b[i].IsUsed && !b[gap].IsUsed
    ensures b[i].ProbeLength < Dist(gap, i, |b|)
  {
    if b[i].ProbeLength >= Dist(gap, i, |b|) {
      ChainBack(b, i, Dist(gap, i, |b|));
    }
  }

  /** A probe length is less than the number of used slots. */
  lemma ProbeBelowCount<K, V>(b: seq<Bucket<K, V>>, home: K -> nat, i: nat)
    requires Placed(b, home) && Chain(b) && i < |b| && b[i].IsUsed
    ensures b[i].ProbeLength < |UsedSlots(b)| <= |b|
  {
    RunOfUsed(b, i, b[i].ProbeLength);
    UsedSlotsBounded(b);
  }

  lemma {:induction false} RunOfUsed<K, V>(b: seq<Bucket<K, V>>, i: nat, d: nat)
    requires Chain(b) && i < |b| && b[i].IsUsed && d <= b[i].ProbeLength && d < |b|
    ensures d < |UsedSlots(b)|
  {
    var run := BackRun(b, i, d);
    SubsetCard(run, UsedSlots(b));
  }

  lemma {:induction false} BackRun<K, V>(b: seq<Bucket<K, V>>, i: nat, d: nat) returns (run: set<nat>)
    requires Chain(b) && i < |b| && b[i].IsUsed && d <= b[i].ProbeLength && d < |b|
    ensures |run| == d + 1 && run <= UsedSlots(b)
    ensures forall j :: j in run ==> j < |b| && Dist(j, i, |b|) <= d
  {
    if d == 0 {
      run := {i};
    } else {
      run := BackRun(b, i, d - 1);
      ChainBack(b, i, d);
      var j := if d <= i then i - d else i + |b| - d;
      assert Dist(j, i, |b|) == d;
      run := run + {j};
    }
  }

  lemma UsedSlotsBounded<K, V>(b: seq<Bucket<K, V>>)
    ensures |UsedSlots(b)| <= |b|
    ensures |UsedSlots(b)| < |b| <==> exists i :: 0 <= i < |b| && !b[i].IsUsed
  {
    var all := Range(|b|);
    SubsetCard(UsedSlots(b), all);
    if i :| 0 <= i < |b| && !b[i].IsUsed {
      assert i in all && i !in UsedSlots(b);
    } else {
      assert UsedSlots(b) == all;
    }
  }

  ghost function Range(n: nat): (r: set<nat>)
    ensures |r| == n && forall i: nat :: i in r <==> i < n
  {
    if n == 0 then {} else Range(n - 1) + {n - 1}
  }

  // ---------- Contents ----------

  lemma {:induction false} ContentsSize<K, V>(b: seq<Bucket<K, V>>)
    requires Unique(b)
    ensures |Contents(b)| == |UsedSlots(b)|
    decreases |UsedSlots(b)|
  {
    if i :| 0 <= i < |b| && b[i].IsUsed {
      var rest := Without(b, i);
      ClearContents(b, i, rest[i]);
      ContentsAt(b, i);
      ContentsSize(rest);
      assert Contents(rest).Keys == Contents(b).Keys - {b[i].Key};
      assert |Contents(rest)| == |Contents(rest).Keys|;
      assert |Contents(b)| == |Contents(b).Keys|;
    } else {
      assert Contents(b) == map[];
      assert UsedSlots(b) == {};
    }
  }

  lemma ContentsKeys<K, V>(b: seq<Bucket<K, V>>, key: K)
    requires Unique(b)
    ensures key !in Contents(b) <==> Absent(b, key)
  {
  }

  /** Storing a fresh key in an unused slot adds one binding. */
  lemma FillContents<K, V>(b: seq<Bucket<K, V>>, i: nat, x: Bucket<K, V>)
    requires Unique(b) && i < |b| && !b[i].IsUsed && x.IsUsed && Absent(b, x.Key)
    ensures var b' := b[i := x];
            Unique(b') && Contents(b') == Contents(b)[x.Key := x.Value]
            && |UsedSlots(b')| == |UsedSlots(b)| + 1
  {
    var b' := b[i := x];
    assert UsedSlots(b') == UsedSlots(b) + {i};
    var m, m' := Contents(b), Contents(b');
    assert b'[i] == x;
    forall k | k in m ensures k in m' && m'[k] == if k == x.Key then x.Value else m[k] {
      var j :| 0 <= j < |b| && b[j].IsUsed && b[j].Key == k;
      assert b'[j] == b[j];
    }
    forall k | k in m' ensures k == x.Key || k in m {
      var j :| 0 <= j < |b'| && b'[j].IsUsed && b'[j].Key == k;
      assert j != i ==> b[j] == b'[j];
    }
  }

  lemma ClearUsed<K, V>(b: seq<Bucket<K, V>>, i: nat, x: Bucket<K, V>)
    requires i < |b| && b[i].IsUsed && !x.IsUsed
    ensures |UsedSlots(b[i := x])| == |UsedSlots(b)| - 1
  {
    assert UsedSlots(b[i := x]) == UsedSlots(b) - {i};
  }

  /** Marking a used slot unused removes exactly its binding. */
  lemma ClearContents<K, V>(b: seq<Bucket<K, V>>, i: nat, x: Bucket<K, V>)
    requires Unique(b) && i < |b| && b[i].IsUsed && !x.IsUsed
    ensures var b' := b[i := x];
            Unique(b') && Contents(b') == Contents(b) - {b[i].Key} && Absent(b', b[i].Key)
            && |UsedSlots(b')| == |UsedSlots(b)| - 1
  {
    var b' := b[i := x];
    ClearUsed(b, i, x);
    hide UsedSlots;
    var m, m' := Contents(b), Contents(b');
    forall k | k in m && k != b[i].Key ensures k in m' && m'[k] == m[k] {
      var j :| 0 <= j < |b| && b[j].IsUsed && b[j].Key == k;
      assert b'[j] == b[j];
    }
    forall k | k in m' ensures k in m && k != b[i].Key {
      var j :| 0 <= j < |b'| && b'[j].IsUsed && b'[j].Key == k;
      assert b[j] == b'[j];
    }
  }

  /** Overwriting a used slot exchanges one binding for another. */
  lemma SwapContents<K, V>(b: seq<Bucket<K, V>>, i: nat, x: Bucket<K, V>)
    requires Unique(b) && i < |b| && b[i].IsUsed && x.IsUsed
    requires Absent(Without(b, i), x.Key)
    ensures var b' := b[i := x];
            Unique(b') && Contents(b') == (Contents(b) - {b[i].Key})[x.Key := x.Value]
            && |UsedSlots(b')| == |UsedSlots(b)|
  {
    var hole := Without(b, i);
    ClearContents(b, i, hole[i]);
    FillContents(hole, i, x);
    assert hole[i := x] == b[i := x];
  }

  // ---------- One step of Add ----------

  /** The bucket being carried at `idx` with probe length `p` may be stored there. */
  ghost predicate Fits<K, V>(b: seq<Bucket<K, V>>, home: K -> nat, key: K, idx: nat, p: nat) {
    && idx < |b| && home(key) < |b| && p == Dist(home(key), idx, |b|)
    && (p > 0 ==> var q := Prev(idx, |b|); b[q].IsUsed && b[q].ProbeLength + 1 >= p)
  }

  lemma StoreStep<K, V>(b: seq<Bucket<K, V>>, home: K -> nat, idx: nat, x: Bucket<K, V>)
    requires Placed(b, home) && Chain(b) && Unique(b) && x.IsUsed && Fits(b, home, x.Key, idx, x.ProbeLength)
    requires !b[idx].IsUsed && Absent(b, x.Key)
    ensures WellFormed(b[idx := x], home)
  {
    var b' := b[idx := x];
    FillContents(b, idx, x);
    var nxt := Next(idx, |b|);
    assert ChainAt(b, nxt);
    assert Stop(b'[nxt]);
    forall i | 0 <= i < |b| ensures ChainAt(b', i) {
      assert ChainAt(b, i);
    }
  }

  lemma SwapStep<K, V>(b: seq<Bucket<K, V>>, home: K -> nat, idx: nat, x: Bucket<K, V>)
    requires Placed(b, home) && Chain(b) && Unique(b) && x.IsUsed && Fits(b, home, x.Key, idx, x.ProbeLength)
    requires b[idx].IsUsed && x.ProbeLength > b[idx].ProbeLength && Absent(b, x.Key)
    ensures var b' := b[idx := x];
            Placed(b', home) && Chain(b') && Unique(b') && Absent(b', b[idx].Key)
            && Fits(b', home, b[idx].Key, Next(idx, |b|), b[idx].ProbeLength + 1)
  {
    var b' := b[idx := x];
    SwapContents(b, idx, x);
    forall i | 0 <= i < |b| ensures ChainAt(b', i) {
      assert ChainAt(b, i);
    }
  }

  /** Passing a bucket that keeps its slot: the carried probe grows by one. */
  lemma PassStep<K, V>(b: seq<Bucket<K, V>>, home: K -> nat, key: K, idx: nat, p: nat, gap: nat)
    requires Chain(b) && Fits(b, home, key, idx, p) && gap < |b| && !b[gap].IsUsed
    requires b[idx].IsUsed && p <= b[idx].ProbeLength
    ensures Fits(b, home, key, Next(idx, |b|), p + 1)
  {
    ProbeBeforeGap(b, idx, gap);
  }

  /** A carried probe length is at most the number of used slots. */
  lemma CarriedBelowCount<K, V>(b: seq<Bucket<K, V>>, home: K -> nat, key: K, idx: nat, p: nat)
    requires Placed(b, home) && Chain(b) && Fits(b, home, key, idx, p)
    ensures p <= |UsedSlots(b)|
  {
    if p > 0 {
      ProbeBelowCount(b, home, Prev(idx, |b|));
    }
  }

  lemma ExchangeBindings<K, V>(m: map<K, V>, stored: K, k: K, v: V)
    requires stored in m && k != stored
    ensures (m - {stored})[k := v][stored := m[stored]] == m[k := v]
  {
  }

  /** The state of an insertion of `key := value` into the ring `b0` after `d` probes: `x` is the
      bucket being carried, `at` the distance from home at which the new key was stored, if it was. */
  ghost predicate Inserting<K, V>(b0: seq<Bucket<K, V>>, b: seq<Bucket<K, V>>, home: K -> nat, key: K, value: V,
                                  x: Bucket<K, V>, d: nat, gap: nat, stored: bool, at: nat) {
    && |b| == |b0| && gap < |b| && home(key) < |b| && d <= Dist(home(key), gap, |b|)
    && Unique(b0) && |UsedSlots(b)| == |UsedSlots(b0)| && !b[gap].IsUsed
    && Placed(b, home) && Chain(b) && Unique(b)
    && x.IsUsed && Fits(b, home, x.Key, At(home(key), d, |b|), x.ProbeLength)
    && (if stored then
          && at < d && (var s := At(home(key), at, |b|); b[s].IsUsed && b[s].Key == key)
          && Absent(b, x.Key) && Absent(b0, key)
          && Contents(b)[x.Key := x.Value] == Contents(b0)[key := value]
        else
          && b == b0 && x.Key == key && x.Value == value && x.ProbeLength == d
          && forall e :: 0 <= e < d ==> b[At(home(key), e, |b|)].Key != key)
  }

  /** Once the search meets an unused slot or a richer bucket, the key is known to be absent. */
  lemma InsertingAbsent<K, V>(b0: seq<Bucket<K, V>>, b: seq<Bucket<K, V>>, home: K -> nat, key: K, value: V,
                              x: Bucket<K, V>, d: nat, gap: nat, stored: bool, at: nat)
    requires Inserting(b0, b, home, key, value, x, d, gap, stored, at)
    requires var i := At(home(key), d, |b|); !b[i].IsUsed || x.ProbeLength > b[i].ProbeLength
    ensures Absent(b, x.Key) && Absent(b0, key) && Contents(b)[x.Key := x.Value] == Contents(b0)[key := value]
  {
    if !stored {
      EarlyExit(b, home, key, d);
    }
  }

  /** An existing key is met before anything was displaced. */
  lemma InsertingFound<K, V>(b0: seq<Bucket<K, V>>, b: seq<Bucket<K, V>>, home: K -> nat, key: K, value: V,
                             x: Bucket<K, V>, d: nat, gap: nat, stored: bool, at: nat)
    requires Inserting(b0, b, home, key, value, x, d, gap, stored, at)
    requires var i := At(home(key), d, |b|); b[i].IsUsed && b[i].Key == x.Key
    ensures !stored && b == b0 && x.Key == key && key in Contents(b0)
  {
    ContentsAt(b, At(home(key), d, |b|));
  }

  lemma InsertingStores<K, V>(b0: seq<Bucket<K, V>>, b: seq<Bucket<K, V>>, home: K -> nat, key: K, value: V,
                              x: Bucket<K, V>, d: nat, gap: nat, stored: bool, at: nat)
    requires Inserting(b0, b, home, key, value, x, d, gap, stored, at)
    requires !b[At(home(key), d, |b|)].IsUsed
    ensures var b' := b[At(home(key), d, |b|) := x];
            && WellFormed(b', home) && Contents(b') == Contents(b0)[key := value] && key !in Contents(b0)
            && |UsedSlots(b')| == |UsedSlots(b0)| + 1
            && (var s := At(home(key), if stored then at else d, |b|); b'[s].IsUsed && b'[s].Key == key)
  {
    var i := At(home(key), d, |b|);
    InsertingAbsent(b0, b, home, key, value, x, d, gap, stored, at);
    StoreStep(b, home, i, x);
    FillContents(b, i, x);
    ContentsKeys(b0, key);
  }

  lemma InsertingStarts<K, V>(b: seq<Bucket<K, V>>, home: K -> nat, x: Bucket<K, V>, gap: nat)
    requires WellFormed(b, home) && home(x.Key) < |b| && x.IsUsed && x.ProbeLength == 0
    requires gap < |b| && !b[gap].IsUsed
    ensures Inserting(b, b, home, x.Key, x.Value, x, 0, gap, false, 0)
  {
  }

  lemma InsertingBounds<K, V>(b0: seq<Bucket<K, V>>, b: seq<Bucket<K, V>>, home: K -> nat, key: K, value: V,
                              x: Bucket<K, V>, d: nat, gap: nat, stored: bool, at: nat)
    requires Inserting(b0, b, home, key, value, x, d, gap, stored, at)
    ensures |b| == |b0| && home(key) < |b| && d < |b| && (stored ==> at < d)
  {
  }

  lemma InsertingSwaps<K, V>(b0: seq<Bucket<K, V>>, b: seq<Bucket<K, V>>, home: K -> nat, key: K, value: V,
                             x: Bucket<K, V>, d: nat, gap: nat, stored: bool, at: nat)
    requires Inserting(b0, b, home, key, value, x, d, gap, stored, at)
    requires var i := At(home(key), d, |b|); b[i].IsUsed && x.ProbeLength > b[i].ProbeLength
    ensures var i := At(home(key), d, |b|);
            var x' := b[i].(ProbeLength := b[i].ProbeLength + 1);
            && Inserting(b0, b[i := x], home, key, value, x', d + 1, gap, true, if stored then at else d)
            && x'.ProbeLength <= |UsedSlots(b0)|
  {
    hide Placed, Chain, Unique, Absent, Contents, UsedSlots;
    var i := At(home(key), d, |b|);
    InsertingAbsent(b0, b, home, key, value, x, d, gap, stored, at);
    SwapStep(b, home, i, x);
    SwapContents(b, i, x);
    ContentsAt(b, i);
    ExchangeBindings(Contents(b), b[i].Key, x.Key, x.Value);
    ProbeBelowCount(b, home, i);
    if stored {
      assert At(home(key), at, |b|) != i;
    }
  }

  lemma InsertingPasses<K, V>(b0: seq<Bucket<K, V>>, b: seq<Bucket<K, V>>, home: K -> nat, key: K, value: V,
                              x: Bucket<K, V>, d: nat, gap: nat, stored: bool, at: nat)
    requires Inserting(b0, b, home, key, value, x, d, gap, stored, at)
    requires var i := At(home(key), d, |b|);
             b[i].IsUsed && x.ProbeLength <= b[i].ProbeLength && b[i].Key != x.Key
    ensures var x' := x.(ProbeLength := x.ProbeLength + 1);
            && Inserting(b0, b, home, key, value, x', d + 1, gap, stored, at)
            && x'.ProbeLength <= |UsedSlots(b0)|
  {
    hide Placed, Chain, Unique, Absent, Contents, UsedSlots;
    var i := At(home(key), d, |b|);
    PassStep(b, home, x.Key, i, x.ProbeLength, gap);
    CarriedBelowCount(b, home, x.Key, Next(i, |b|), x.ProbeLength + 1);
  }

  // ---------- One step of Remove ----------

  /** The ring in the middle of a backward shift: the bucket at `hole` is a leftover whose key is
      either the one being removed or already stored one slot earlier. */
  ghost predicate Shifting<K, V>(b: seq<Bucket<K, V>>, home: K -> nat, hole: nat, rest: map<K, V>) {
    && hole < |b| && b[hole].IsUsed
    && Placed(b, home) && Chain(b)
    && Unique(Without(b, hole)) && Contents(Without(b, hole)) == rest
  }

  lemma ShiftStarts<K, V>(b: seq<Bucket<K, V>>, home: K -> nat, found: nat) returns (far: nat)
    requires WellFormed(b, home) && found < |b| && b[found].IsUsed
    ensures Shifting(b, home, found, Contents(b) - {b[found].Key})
    ensures 0 < far <= |b| && Stop(b[At(found, far, |b|)])
  {
    ClearContents(b, found, b[found].(IsUsed := false));
    var goal: nat :| goal < |b| && Stop(b[goal]);
    far := if goal == found then |b| else Dist(found, goal, |b|);
  }

  /** The ring with the bucket at `i` disregarded. */
  ghost function Without<K, V>(b: seq<Bucket<K, V>>, i: nat): seq<Bucket<K, V>>
    requires i < |b|
  {
    b[i := b[i].(IsUsed := false)]
  }

  function Closer<K, V>(x: Bucket<K, V>): Bucket<K, V>
    requires x.ProbeLength > 0
  {
    x.(ProbeLength := x.ProbeLength - 1)
  }

  lemma ShiftStep<K, V>(b: seq<Bucket<K, V>>, home: K -> nat, hole: nat, rest: map<K, V>)
    requires Shifting(b, home, hole, rest) && |b| > 1 && !Stop(b[Next(hole, |b|)])
    ensures var nxt := Next(hole, |b|);
            var b' := b[hole := Closer(b[nxt])];
            && Shifting(b', home, nxt, rest)
            && UsedSlots(b') == UsedSlots(b)
            && (Stop(b[hole]) ==> Stop(b'[hole]))
  {
    var nxt := Next(hole, |b|);
    ShiftContents(b, hole, nxt, Closer(b[nxt]));
    ShiftLayout(b, home, hole);
  }

  lemma ShiftLayout<K, V>(b: seq<Bucket<K, V>>, home: K -> nat, hole: nat)
    requires hole < |b| && b[hole].IsUsed && Placed(b, home) && Chain(b)
    requires |b| > 1 && !Stop(b[Next(hole, |b|)])
    ensures var b' := b[hole := Closer(b[Next(hole, |b|)])];
            Placed(b', home) && Chain(b') && (b[hole].ProbeLength == 0 ==> b'[hole].ProbeLength == 0)
  {
    var nxt := Next(hole, |b|);
    var b' := b[hole := Closer(b[nxt])];
    assert ChainAt(b, nxt);
    forall i | 0 <= i < |b| ensures ChainAt(b', i) {
      assert ChainAt(b, i);
    }
  }

  /** Moving the bucket at `j` into the disregarded slot `i` leaves the contents as they were. */
  lemma ShiftContents<K, V>(b: seq<Bucket<K, V>>, i: nat, j: nat, x: Bucket<K, V>)
    requires i < |b| && j < |b| && i != j && b[i].IsUsed && b[j].IsUsed && Unique(Without(b, i))
    requires x.IsUsed && x.Key == b[j].Key && x.Value == b[j].Value
    ensures var b' := b[i := x];
            Unique(Without(b', j)) && Contents(Without(b', j)) == Contents(Without(b, i))
            && UsedSlots(b') == UsedSlots(b)
  {
    assert UsedSlots(b[i := x]) == UsedSlots(b);
    var open := Without(b, i);
    var mid := Without(open, j);
    ContentsAt(open, j);
    ClearContents(open, j, mid[j]);
    FillContents(mid, i, x);
    assert mid[i := x] == Without(b[i := x], j);
    Reinsert(Contents(open), x.Key, x.Value);
  }

  lemma ContentsAt<K, V>(b: seq<Bucket<K, V>>, i: nat)
    requires Unique(b) && i < |b| && b[i].IsUsed
    ensures b[i].Key in Contents(b) && Contents(b)[b[i].Key] == b[i].Value
  {
  }

  lemma Reinsert<K, V>(m: map<K, V>, key: K, value: V)
    requires key in m && m[key] == value
    ensures (m - {key})[key := value] == m
  {
  }

  lemma ShiftEnds<K, V>(b: seq<Bucket<K, V>>, home: K -> nat, hole: nat, rest: map<K, V>, x: Bucket<K, V>)
    requires Shifting(b, home, hole, rest) && !x.IsUsed && x.ProbeLength == 0 && (|b| > 1 ==> Stop(b[Next(hole, |b|)]))
    ensures WellFormed(b[hole := x], home) && Contents(b[hole := x]) == rest
    ensures |UsedSlots(b[hole := x])| == |UsedSlots(b)| - 1
  {
    var b' := b[hole := x];
    assert Stop(b'[hole]);
    forall i | 0 <= i < |b| ensures ChainAt(b', i) {
      assert ChainAt(b, i);
    }
    assert UsedSlots(b') == UsedSlots(b) - {hole};
    SameUsed(Without(b, hole), b');
  }

  lemma SameUsed<K, V>(b: seq<Bucket<K, V>>, b': seq<Bucket<K, V>>)
    requires Unique(b) && |b| == |b'|
    requires forall i :: 0 <= i < |b| ==> b[i].IsUsed == b'[i].IsUsed && (b[i].IsUsed ==> b[i] == b'[i])
    ensures Unique(b') && Contents(b') == Contents(b)
  {
    var m, m' := Contents(b), Contents(b');
    forall k | k in m ensures k in m' && m'[k] == m[k] {
      var j :| 0 <= j < |b| && b[j].IsUsed && b[j].Key == k;
      assert b'[j] == b[j];
    }
    forall k | k in m' ensures k in m {
      var j :| 0 <= j < |b| && b'[j].IsUsed && b'[j].Key == k;
      assert b'[j] == b[j];
    }
  }

  // ---------- How wide a probe length must be ----------

  /** Every well-formed ring of `n` slots with `count` entries has probe lengths below `width`. */
  ghost predicate ProbesFit(count: nat, n: nat, width: nat) {
    forall b: seq<Bucket<nat, ()>>, home: nat -> nat, i: nat ::
      WellFormed(b, home) && |b| == n && |UsedSlots(b)| == count && i < n && b[i].IsUsed ==> b[i].ProbeLength < width
  }

  /** A worst case: `count` keys that all have home slot zero. */
  ghost function Crowded(count: nat, n: nat): seq<Bucket<nat, ()>> {
    seq(n, i => if 0 <= i < count then Bucket(i, i, true, ()) else Bucket(0, 0, false, ()))
  }

  /** The bound is exact: the entries fit a field of `width` values if and only if there are at most
      `width` of them. For the `u16` of the source that is 65536 entries. */
  lemma ProbesFitIff(count: nat, n: nat, width: nat)
    requires 0 < count <= n
    ensures ProbesFit(count, n, width) <==> count <= width
  {
    if count <= width {
      forall b: seq<Bucket<nat, ()>>, home: nat -> nat, i: nat
        | WellFormed(b, home) && |b| == n && |UsedSlots(b)| == count && i < n && b[i].IsUsed
        ensures b[i].ProbeLength < width
      {
        ProbeBelowCount(b, home, i);
      }
    } else {
      var b := Crowded(count, n);
      var home: nat -> nat := k => 0;
      CrowdedWellFormed(count, n, home);
      assert b[count - 1].ProbeLength >= width;
    }
  }

  lemma CrowdedWellFormed(count: nat, n: nat, home: nat -> nat)
    requires 0 < count <= n && forall k :: home(k) == 0
    ensures WellFormed(Crowded(count, n), home) && |UsedSlots(Crowded(count, n))| == count
  {
    var b := Crowded(count, n);
    assert Stop(b[0]);
    forall i | 0 <= i < n ensures ChainAt(b, i) {
    }
    assert UsedSlots(b) == Range(count);
  }
}
