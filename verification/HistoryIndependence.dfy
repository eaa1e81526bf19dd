/** History independence of the Robin Hood layout: which slots are used, and with which probe
    lengths, says exactly how many stored keys have each home slot. */
module HistoryIndependence {
  import opened Base
  import opened Ring
  import opened RobinHood
  import HashMaps

  /** The key stored `d` slots after `j + 1` comes from home `j` or earlier. */
  ghost predicate Crosses<K, V>(b: seq<Bucket<K, V>>, j: nat, d: nat)
    requires j < |b|
  {
    d < |b| && var s := At(Next(j, |b|), d, |b|); b[s].IsUsed && b[s].ProbeLength > d
  }

  /** The overflow flow out of slot `j`: how many keys pass from slot `j` into slot `j + 1`. */
  ghost function Flow<K, V>(b: seq<Bucket<K, V>>, j: nat, d: nat := 0): (r: nat)
    requires j < |b| && d <= |b|
    ensures d + r <= |b| && !Crosses(b, j, d + r)
    ensures forall e :: d <= e < d + r ==> Crosses(b, j, e)
    decreases |b| - d
  {
    if Crosses(b, j, d) then 1 + Flow(b, j, d + 1) else 0
  }

  /** The key stored `e` slots after `j` comes from home `j` or earlier. */
  ghost predicate Arrives<K, V>(b: seq<Bucket<K, V>>, j: nat, e: nat)
    requires j < |b|
  {
    e < |b| && var s := At(j, e, |b|); b[s].IsUsed && b[s].ProbeLength >= e
  }

  ghost function KeysAtHome<K(!new)>(keys: set<K>, home: K -> nat, j: nat): set<K> {
    set k | k in keys && home(k) == j
  }

  lemma CrossesCloses<K, V>(b: seq<Bucket<K, V>>, j: nat, d: nat, e: nat)
    requires Chain(b) && j < |b| && e <= d && Crosses(b, j, d)
    ensures Crosses(b, j, e)
  {
    ChainBack(b, At(Next(j, |b|), d, |b|), d - e);
  }

  lemma ArrivesCloses<K, V>(b: seq<Bucket<K, V>>, j: nat, d: nat, e: nat)
    requires Chain(b) && j < |b| && e <= d && Arrives(b, j, d)
    ensures Arrives(b, j, e)
  {
    ChainBack(b, At(j, d, |b|), d - e);
  }

  /** A flow of at least `p` out of slot `s - p` says exactly that slot `s` is displaced by `p`. */
  lemma FlowIsProbe<K, V>(b: seq<Bucket<K, V>>, j: nat, p: nat)
    requires Chain(b) && j < |b| && 0 < p < |b|
    ensures Flow(b, j) >= p <==> var s := At(j, p, |b|); b[s].IsUsed && b[s].ProbeLength >= p
  {
    assert At(Next(j, |b|), p - 1, |b|) == At(j, p, |b|);
    if Crosses(b, j, p - 1) && Flow(b, j) < p {
      CrossesCloses(b, j, p - 1, Flow(b, j));
    }
  }

  /** Flow conservation at slot `j`: the keys passing in and the keys at home there either pass on
      or, at most one of them, stay. */
  lemma FlowStep<K(!new), V>(b: seq<Bucket<K, V>>, home: K -> nat, j: nat)
    requires WellFormed(b, home) && j < |b|
    ensures var waiting := Flow(b, Prev(j, |b|)) + |KeysAtHome(Contents(b).Keys, home, j)|;
            && (b[j].IsUsed <==> waiting > 0)
            && Flow(b, j) == if waiting > 0 then waiting - 1 else 0
  {
    var n, i, a := |b|, Prev(j, |b|), Flow(b, Prev(j, |b|));
    assert forall e :: 0 <= e < n ==> (Crosses(b, i, e) ==> Arrives(b, j, e));
    var m, ks := Arrivals(b, home, j, a);
    HomeSlots(b, home, j, a, m, ks);
    FlowOut(b, home, j, m);
    if m > 0 {
      ArrivesCloses(b, j, m - 1, 0);
    }
  }

  /** If the arrivals at slot `j` are the first `m`, one of them stays and the others pass on. */
  lemma FlowOut<K, V>(b: seq<Bucket<K, V>>, home: K -> nat, j: nat, m: nat)
    requires Placed(b, home) && Chain(b) && j < |b| && m <= |b|
    requires !Arrives(b, j, m) && (m > 0 ==> Arrives(b, j, m - 1))
    ensures Flow(b, j) == if m > 0 then m - 1 else 0
  {
    hide Chain, Placed, ChainAt;
    var f := Flow(b, j);
    if m > 0 && f < m - 1 {
      ArrivesCloses(b, j, m - 1, f + 1);
      CrossesIsArrives(b, home, j, f);
    } else if f > 0 && f > m - 1 {
      var d := if m > 0 then m - 1 else 0;
      assert Crosses(b, j, d);
      CrossesIsArrives(b, home, j, d);
      if m == 0 {
        ArrivesCloses(b, j, 1, 0);
      }
    }
  }

  lemma CrossesIsArrives<K, V>(b: seq<Bucket<K, V>>, home: K -> nat, j: nat, d: nat)
    requires Placed(b, home) && j < |b|
    ensures Crosses(b, j, d) <==> Arrives(b, j, d + 1)
  {
    if d + 1 < |b| {
      assert At(Next(j, |b|), d, |b|) == At(j, d + 1, |b|);
    }
  }

  lemma KeysDiffer<K, V>(b: seq<Bucket<K, V>>, s: nat, t: nat)
    requires Unique(b) && s < |b| && t < |b| && s != t && b[s].IsUsed && b[t].IsUsed
    ensures b[s].Key != b[t].Key
  {
  }

  /** Counts the arrivals at slot `j` beyond the first `a`, which are exactly the keys at home there. */
  lemma Arrivals<K(!new), V>(b: seq<Bucket<K, V>>, home: K -> nat, j: nat, a: nat)
    returns (m: nat, ks: set<K>)
    requires WellFormed(b, home) && j < |b| && a == Flow(b, Prev(j, |b|))
    requires forall e :: 0 <= e < a ==> Arrives(b, j, e)
    ensures a <= m <= |b| && !Arrives(b, j, m) && (m > 0 ==> Arrives(b, j, m - 1))
    ensures |ks| == m - a && forall e :: a <= e < m ==> Arrives(b, j, e)
    ensures forall k :: k in ks <==> exists e :: a <= e < m && b[At(j, e, |b|)].Key == k
  {
    hide Chain, Placed, Unique, Contents;
    m, ks := a, {};
    while Arrives(b, j, m)
      invariant a <= m <= |b| && (m > 0 ==> Arrives(b, j, m - 1))
      invariant |ks| == m - a && forall e :: a <= e < m ==> Arrives(b, j, e)
      invariant forall k :: k in ks <==> exists e :: a <= e < m && b[At(j, e, |b|)].Key == k
      decreases |b| - m
    {
      var s := At(j, m, |b|);
      forall e | a <= e < m ensures b[At(j, e, |b|)].Key != b[s].Key {
        assert Arrives(b, j, e);
        KeysDiffer(b, At(j, e, |b|), s);
      }
      ks := ks + {b[s].Key};
      m := m + 1;
    }
  }

  lemma HomeSlots<K(!new), V>(b: seq<Bucket<K, V>>, home: K -> nat, j: nat, a: nat, m: nat, ks: set<K>)
    requires WellFormed(b, home) && j < |b| && a == Flow(b, Prev(j, |b|)) && a <= m <= |b|
    requires !Arrives(b, j, m) && forall e :: a <= e < m ==> Arrives(b, j, e)
    requires forall k :: k in ks <==> exists e :: a <= e < m && b[At(j, e, |b|)].Key == k
    ensures ks == KeysAtHome(Contents(b).Keys, home, j)
  {
    var n := |b|;
    forall k | k in ks ensures k in Contents(b) && home(k) == j {
      var e :| a <= e < m && b[At(j, e, n)].Key == k;
      assert Arrives(b, j, e);
      AtHome(b, home, j, e);
    }
    forall k | k in Contents(b) && home(k) == j ensures k in ks {
      var s :| 0 <= s < n && b[s].IsUsed && b[s].Key == k;
      var e := b[s].ProbeLength;
      assert At(j, e, n) == s;
      FromHome(b, home, j, e);
      if e >= m {
        ArrivesCloses(b, j, e, m);
      }
    }
  }

  /** An arrival at slot `j` that does not cross from `j - 1` has its home at `j`, and conversely. */
  lemma AtHome<K, V>(b: seq<Bucket<K, V>>, home: K -> nat, j: nat, e: nat)
    requires j < |b| && WellFormed(b, home) && Arrives(b, j, e) && e >= Flow(b, Prev(j, |b|))
    ensures var k := b[At(j, e, |b|)].Key; home(k) == j && k in Contents(b)
  {
    var i := Prev(j, |b|);
    if Crosses(b, i, e) {
      CrossesCloses(b, i, e, Flow(b, i));
    }
    ContentsAt(b, At(j, e, |b|));
  }

  lemma FromHome<K, V>(b: seq<Bucket<K, V>>, home: K -> nat, j: nat, e: nat)
    requires j < |b| && e < |b|
    requires var x := b[At(j, e, |b|)]; x.IsUsed && x.ProbeLength == e
    ensures Arrives(b, j, e) && e >= Flow(b, Prev(j, |b|))
  {
    assert !Crosses(b, Prev(j, |b|), e);
  }

  /** Two rings hold equally many keys of each home slot, whatever the keys, values and home functions. */
  ghost predicate SameHomeCounts<K(!new), V, L(!new), W>(
      b: seq<Bucket<K, V>>, home: K -> nat, c: seq<Bucket<L, W>>, home': L -> nat)
    requires Unique(b) && Unique(c)
  {
    && |b| == |c|
    && forall j :: 0 <= j < |b| ==>
         |KeysAtHome(Contents(b).Keys, home, j)| == |KeysAtHome(Contents(c).Keys, home', j)|
  }

  /** Starting where one flow vanishes, it stays below the other all the way around. */
  lemma {:induction false} FlowBelow<K(!new), V, L(!new), W>(
      b: seq<Bucket<K, V>>, home: K -> nat, c: seq<Bucket<L, W>>, home': L -> nat, z: nat, t: nat)
    requires WellFormed(b, home) && WellFormed(c, home') && SameHomeCounts(b, home, c, home')
    requires z < |b| && t <= |b| && Flow(b, z) == 0
    ensures Flow(b, At(z, t, |b|)) <= Flow(c, At(z, t, |b|))
  {
    hide WellFormed, Contents;
    if t > 0 {
      FlowBelow(b, home, c, home', z, t - 1);
      var j := At(z, t, |b|);
      assert Prev(j, |b|) == At(z, t - 1, |b|);
      FlowStep(b, home, j);
      FlowStep(c, home', j);
    }
  }

  lemma FlowBelowEverywhere<K(!new), V, L(!new), W>(
      b: seq<Bucket<K, V>>, home: K -> nat, c: seq<Bucket<L, W>>, home': L -> nat, j: nat)
    requires WellFormed(b, home) && WellFormed(c, home') && SameHomeCounts(b, home, c, home') && j < |b|
    ensures Flow(b, j) <= Flow(c, j)
  {
    var i: nat :| i < |b| && Stop(b[i]);
    var z := Prev(i, |b|);
    assert !Crosses(b, z, 0);
    FlowBelow(b, home, c, home', z, Dist(z, j, |b|));
  }

  /** The layout is a function of the home slots alone: two well-formed rings that hold equally many
      keys of each home slot agree on `IsUsed` and `ProbeLength` in every slot, whatever the keys are
      and whatever runs produced the rings, full tables included. */
  lemma SameHomesSameLayout<K(!new), V, L(!new), W>(
      b: seq<Bucket<K, V>>, home: K -> nat, c: seq<Bucket<L, W>>, home': L -> nat)
    requires WellFormed(b, home) && WellFormed(c, home') && SameHomeCounts(b, home, c, home')
    ensures forall s :: 0 <= s < |b| ==> b[s].IsUsed == c[s].IsUsed && b[s].ProbeLength == c[s].ProbeLength
  {
    forall s | 0 <= s < |b| ensures b[s].IsUsed == c[s].IsUsed && b[s].ProbeLength == c[s].ProbeLength {
      FlowBelowEverywhere(b, home, c, home', Prev(s, |b|));
      FlowBelowEverywhere(c, home', b, home, Prev(s, |b|));
      FlowStep(b, home, s);
      FlowStep(c, home', s);
      ProbeBelow(b, home, c, home', s);
      ProbeBelow(c, home', b, home, s);
    }
  }

  lemma ProbeBelow<K(!new), V, L(!new), W>(
      b: seq<Bucket<K, V>>, home: K -> nat, c: seq<Bucket<L, W>>, home': L -> nat, s: nat)
    requires WellFormed(b, home) && WellFormed(c, home') && SameHomeCounts(b, home, c, home') && s < |b|
    ensures b[s].ProbeLength <= c[s].ProbeLength
  {
    var p := b[s].ProbeLength;
    assert p < |b|;
    hide Contents;
    if p > 0 {
      var j := if p <= s then s - p else s + |b| - p;
      FlowIsProbe(b, j, p);
      FlowBelowEverywhere(b, home, c, home', j);
      FlowIsProbe(c, j, p);
    }
  }

  lemma {:induction false} SameFlow<K, V, L, W>(b: seq<Bucket<K, V>>, c: seq<Bucket<L, W>>, j: nat, d: nat)
    requires |b| == |c| && j < |b| && d <= |b|
    requires forall s :: 0 <= s < |b| ==> b[s].IsUsed == c[s].IsUsed && b[s].ProbeLength == c[s].ProbeLength
    ensures Flow(b, j, d) == Flow(c, j, d)
    decreases |b| - d
  {
    if Crosses(b, j, d) {
      SameFlow(b, c, j, d + 1);
    }
  }

  /** Conversely, rings of the same layout hold equally many keys of each home slot. */
  lemma SameLayoutSameHomes<K(!new), V, L(!new), W>(
      b: seq<Bucket<K, V>>, home: K -> nat, c: seq<Bucket<L, W>>, home': L -> nat)
    requires WellFormed(b, home) && WellFormed(c, home') && |b| == |c|
    requires forall s :: 0 <= s < |b| ==> b[s].IsUsed == c[s].IsUsed && b[s].ProbeLength == c[s].ProbeLength
    ensures SameHomeCounts(b, home, c, home')
  {
    hide Chain, Placed, Unique, Contents, KeysAtHome;
    forall j | 0 <= j < |b|
      ensures |KeysAtHome(Contents(b).Keys, home, j)| == |KeysAtHome(Contents(c).Keys, home', j)|
    {
      SameFlow(b, c, j, 0);
      SameFlow(b, c, Prev(j, |b|), 0);
      FlowStep(b, home, j);
      FlowStep(c, home', j);
    }
  }

  /** In particular, rings that store the same keys have the same layout. */
  lemma SameKeysSameLayout<K(!new), V>(b: seq<Bucket<K, V>>, c: seq<Bucket<K, V>>, home: K -> nat)
    requires WellFormed(b, home) && WellFormed(c, home) && |b| == |c|
    requires Contents(b).Keys == Contents(c).Keys
    ensures forall s :: 0 <= s < |b| ==> b[s].IsUsed == c[s].IsUsed && b[s].ProbeLength == c[s].ProbeLength
  {
    SameHomesSameLayout(b, home, c, home);
  }

  /** The same, of two tables: being valid is kept by every operation, so this relates the outcomes
      of any two runs that end with the same keys at the same capacity. */
  lemma SameKeysSameTable<K(!new), V>(m: HashMaps.StaticHashMap<K, V>, m': HashMaps.StaticHashMap<K, V>)
    requires m.Valid() && m'.Valid() && m.hash == m'.hash && m.Capacity == m'.Capacity
    requires m.Map().Keys == m'.Map().Keys
    ensures forall s :: 0 <= s < m.Capacity ==>
      m.Slots()[s].IsUsed == m'.Slots()[s].IsUsed && m.Slots()[s].ProbeLength == m'.Slots()[s].ProbeLength
  {
    SameKeysSameLayout(m.Slots(), m'.Slots(), m.Home());
  }

  /** Removing a key just added undoes the displacement: the layout is the one before. */
  method AddThenRemove<K(==,!new), V>(table: HashMaps.StaticHashMap<K, V>, key: K, value: V)
    requires table.Valid() && table.Count < table.MaxCount && table.Count < U16 && key !in table.Map()
    modifies table`Count, table.Buckets
    ensures table.Valid() && table.Map() == old(table.Map())
    ensures forall s :: 0 <= s < table.Capacity ==>
      && table.Slots()[s].IsUsed == old(table.Slots())[s].IsUsed
      && table.Slots()[s].ProbeLength == old(table.Slots())[s].ProbeLength
  {
    hide WellFormed, Contents, UsedSlots;
    ghost var b := table.Slots();
    var _, _ := table.Add(key, value);
    var _ := table.Remove(key);
    SameKeysSameLayout(b, table.Slots(), table.Home());
  }
}
