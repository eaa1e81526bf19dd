/** The array binary heap of Lib/BHeap.h, in its min and max modes. Keys are pointers, modelled by their
    addresses; pushing orders them by `CompareFunc`, heapifying by address. */
module BHeap {
  type Address = x: nat | x < 0x1_0000_0000_0000_0000

  datatype Item = Item(Key: Address, User: Address)

  datatype Mode = Min | Max

  /** Key `a` may stand above key `b`. */
  predicate Leq(mode: Mode, a: Address, b: Address) {
    if mode.Min? then a <= b else a >= b
  }

  function Parent(i: nat): nat
    requires i > 0
  {
    (i - 1) / 2
  }

  ghost predicate OrderedAt(s: seq<Item>, mode: Mode, i: nat)
    requires 0 < i < |s|
  {
    Leq(mode, s[Parent(i)].Key, s[i].Key)
  }

  ghost predicate Heap(s: seq<Item>, mode: Mode) {
    forall i :: 0 < i < |s| ==> OrderedAt(s, mode, i)
  }

  /** The two orders agree on distinct keys. */
  ghost predicate Agrees(compare: (Address, Address) -> int) {
    forall a: Address, b: Address :: a != b ==> (compare(a, b) < 0 <==> a < b)
  }

  function Swap(s: seq<Item>, i: nat, j: nat): (r: seq<Item>)
    requires i < |s| && j < |s|
    ensures |r| == |s|
  {
    s[i := s[j]][j := s[i]]
  }

  /** Whether a pushed key moves above its parent: strictly smaller, or at least as large. */
  predicate Rises(mode: Mode, compare: (Address, Address) -> int, key: Address, parent: Address) {
    if mode.Min? then compare(key, parent) < 0 else compare(key, parent) >= 0
  }

  function Up(s: seq<Item>, i: nat, mode: Mode, compare: (Address, Address) -> int): (r: seq<Item>)
    requires i < |s|
    ensures |r| == |s|
    decreases i
  {
    if i > 0 && Rises(mode, compare, s[i].Key, s[Parent(i)].Key)
    then Up(Swap(s, i, Parent(i)), Parent(i), mode, compare) else s
  }

  predicate Above(mode: Mode, a: Address, b: Address) {
    if mode.Min? then a < b else a > b
  }

  /** The child that takes the place of node `i`, or `i` itself. */
  function Best(s: seq<Item>, i: nat, mode: Mode): (m: nat)
    requires i < |s|
    ensures m < |s| && (m == i || m == 2 * i + 1 || m == 2 * i + 2)
  {
    var l := 2 * i + 1;
    var m := if l < |s| && Above(mode, s[l].Key, s[i].Key) then l else i;
    if l + 1 < |s| && Above(mode, s[l + 1].Key, s[m].Key) then l + 1 else m
  }

  function Down(s: seq<Item>, i: nat, mode: Mode): (r: seq<Item>)
    requires i < |s|
    ensures |r| == |s|
    decreases |s| - i
  {
    var m := Best(s, i, mode);
    if m == i then s else Down(Swap(s, i, m), m, mode)
  }

  function Pushed(s: seq<Item>, item: Item, mode: Mode, compare: (Address, Address) -> int): seq<Item> {
    Up(s + [item], |s|, mode, compare)
  }

  function Popped(s: seq<Item>, mode: Mode): (r: seq<Item>)
    requires s != []
    ensures |r| == |s| - 1
  {
    var n := |s| - 1;
    if n == 0 then [] else Down(s[..n][0 := s[n]], 0, mode)
  }

  // ---------- Permutation ----------

  lemma SwapPermutes(s: seq<Item>, i: nat, j: nat)
    requires i < j < |s|
    ensures multiset(Swap(s, i, j)) == multiset(Swap(s, j, i)) == multiset(s)
  {
    assert Swap(s, i, j) == Swap(s, j, i);
    assert multiset(s[i := s[j]]) == multiset(s) - multiset{s[i]} + multiset{s[j]};
  }

  lemma {:induction false} UpPermutes(s: seq<Item>, i: nat, mode: Mode, compare: (Address, Address) -> int)
    requires i < |s|
    ensures multiset(Up(s, i, mode, compare)) == multiset(s)
    decreases i
  {
    if i > 0 && Rises(mode, compare, s[i].Key, s[Parent(i)].Key) {
      SwapPermutes(s, Parent(i), i);
      UpPermutes(Swap(s, i, Parent(i)), Parent(i), mode, compare);
    }
  }

  lemma {:induction false} DownPermutes(s: seq<Item>, i: nat, mode: Mode)
    requires i < |s|
    ensures multiset(Down(s, i, mode)) == multiset(s)
    decreases |s| - i
  {
    var m := Best(s, i, mode);
    if m != i {
      SwapPermutes(s, i, m);
      DownPermutes(Swap(s, i, m), m, mode);
    }
  }

  // ---------- Order ----------

  /** Ordered everywhere but between node `i` and its parent. */
  ghost predicate RisingAt(s: seq<Item>, mode: Mode, i: nat) {
    && (forall j :: 0 < j < |s| && j != i ==> OrderedAt(s, mode, j))
    && (forall j :: 0 < j < |s| && Parent(j) == i && 0 < i < |s| ==> Leq(mode, s[Parent(i)].Key, s[j].Key))
  }

  lemma {:induction false} UpOrders(s: seq<Item>, i: nat, mode: Mode, compare: (Address, Address) -> int)
    requires i < |s| && RisingAt(s, mode, i) && Agrees(compare)
    ensures Heap(Up(s, i, mode, compare), mode)
    decreases i
  {
    if i > 0 {
      var p := Parent(i);
      if Rises(mode, compare, s[i].Key, s[p].Key) {
        UpStep(s, i, mode);
        UpOrders(Swap(s, i, p), p, mode, compare);
      } else {
        assert OrderedAt(s, mode, i);
      }
    }
  }

  lemma UpStep(s: seq<Item>, i: nat, mode: Mode)
    requires 0 < i < |s| && RisingAt(s, mode, i) && Leq(mode, s[i].Key, s[Parent(i)].Key)
    ensures RisingAt(Swap(s, i, Parent(i)), mode, Parent(i))
  {
    var p, r := Parent(i), Swap(s, i, Parent(i));
    forall j | 0 < j < |s| && j != p ensures OrderedAt(r, mode, j) {
      assert j != i ==> OrderedAt(s, mode, j);
    }
    forall j | 0 < j < |s| && Parent(j) == p && p > 0 ensures Leq(mode, r[Parent(p)].Key, r[j].Key) {
      assert OrderedAt(s, mode, p);
      assert j != i ==> OrderedAt(s, mode, j);
    }
  }

  /** Ordered everywhere but between node `i` and its children. */
  ghost predicate SinkingAt(s: seq<Item>, mode: Mode, i: nat) {
    && (forall j :: 0 < j < |s| && Parent(j) != i ==> OrderedAt(s, mode, j))
    && (forall j :: 0 < j < |s| && Parent(j) == i && 0 < i < |s| ==> Leq(mode, s[Parent(i)].Key, s[j].Key))
  }

  lemma {:induction false} DownOrders(s: seq<Item>, i: nat, mode: Mode)
    requires i < |s| && SinkingAt(s, mode, i)
    ensures Heap(Down(s, i, mode), mode)
    decreases |s| - i
  {
    var m := Best(s, i, mode);
    if m == i {
      forall j | 0 < j < |s| ensures OrderedAt(s, mode, j) {
        assert Parent(j) == i ==> j == 2 * i + 1 || j == 2 * i + 2;
      }
    } else {
      DownStep(s, i, mode);
      DownOrders(Swap(s, i, m), m, mode);
    }
  }

  lemma DownStep(s: seq<Item>, i: nat, mode: Mode)
    requires i < |s| && SinkingAt(s, mode, i) && Best(s, i, mode) != i
    ensures SinkingAt(Swap(s, i, Best(s, i, mode)), mode, Best(s, i, mode))
  {
    var m := Best(s, i, mode);
    var r := Swap(s, i, m);
    assert Parent(m) == i;
    forall j | 0 < j < |s| && Parent(j) != m ensures OrderedAt(r, mode, j) {
      assert Parent(j) != i ==> OrderedAt(s, mode, j);
      assert Parent(j) == i ==> j == 2 * i + 1 || j == 2 * i + 2;
    }
    forall j | 0 < j < |s| && Parent(j) == m ensures Leq(mode, r[Parent(m)].Key, r[j].Key) {
      assert OrderedAt(s, mode, j);
    }
  }

  lemma {:induction false} RootIsExtreme(s: seq<Item>, mode: Mode, i: nat)
    requires Heap(s, mode) && i < |s|
    ensures Leq(mode, s[0].Key, s[i].Key)
    decreases i
  {
    if i > 0 {
      RootIsExtreme(s, mode, Parent(i));
      assert OrderedAt(s, mode, i);
    }
  }

  lemma PushedIsHeap(s: seq<Item>, item: Item, mode: Mode, compare: (Address, Address) -> int)
    requires Heap(s, mode) && Agrees(compare)
    ensures Heap(Pushed(s, item, mode, compare), mode)
  {
    var r := s + [item];
    forall j | 0 < j < |r| && j != |s| ensures OrderedAt(r, mode, j) {
      assert OrderedAt(s, mode, j);
    }
    UpOrders(r, |s|, mode, compare);
  }

  lemma PushedPermutes(s: seq<Item>, item: Item, mode: Mode, compare: (Address, Address) -> int)
    ensures multiset(Pushed(s, item, mode, compare)) == multiset(s) + multiset{item}
  {
    UpPermutes(s + [item], |s|, mode, compare);
  }

  /** Pushing keeps every heap a heap if and only if the two orders agree on distinct keys. */
  lemma PushKeepsHeapIff(mode: Mode, compare: (Address, Address) -> int)
    ensures Agrees(compare) <==>
      forall s, item :: Heap(s, mode) ==> Heap(Pushed(s, item, mode, compare), mode)
  {
    if Agrees(compare) {
      forall s, item | Heap(s, mode) ensures Heap(Pushed(s, item, mode, compare), mode) {
        PushedIsHeap(s, item, mode, compare);
      }
    } else {
      var a: Address, b: Address :| a != b && !(compare(a, b) < 0 <==> a < b);
      var s, item := [Item(b, 0)], Item(a, 0);
      assert Heap(s, mode);
      var r, t := Pushed(s, item, mode, compare), [Item(b, 0), Item(a, 0)];
      assert s + [item] == t && Parent(1) == 0;
      assert Up(Swap(t, 1, 0), 0, mode, compare) == Swap(t, 1, 0) == [item, s[0]];
      assert r == if Rises(mode, compare, a, b) then [item, s[0]] else [s[0], item];
      assert !OrderedAt(r, mode, 1);
    }
  }

  /** Of items with equal keys, the one pushed last ends above the others in a max heap and below them in a
      min heap: here for the root, when `CompareFunc` gives 0 for equal keys. */
  lemma RootAfterPush(s: seq<Item>, item: Item, mode: Mode, compare: (Address, Address) -> int)
    requires s != [] && Heap(s, mode) && Agrees(compare) && forall k: Address :: compare(k, k) == 0
    ensures Pushed(s, item, mode, compare)[0] ==
      if (if mode.Min? then item.Key < s[0].Key else item.Key >= s[0].Key) then item else s[0]
  {
    var t := s + [item];
    forall j | 0 <= j < |s| ensures Leq(mode, t[0].Key, t[j].Key) {
      RootIsExtreme(s, mode, j);
    }
    UpToRoot(t, |s|, mode, compare);
  }

  lemma {:induction false} UpToRoot(t: seq<Item>, i: nat, mode: Mode, compare: (Address, Address) -> int)
    requires 0 < i < |t| && Agrees(compare) && forall k: Address :: compare(k, k) == 0
    requires forall j :: 0 <= j < |t| && j != i ==> Leq(mode, t[0].Key, t[j].Key)
    ensures Up(t, i, mode, compare)[0] ==
      if (if mode.Min? then t[i].Key < t[0].Key else t[i].Key >= t[0].Key) then t[i] else t[0]
    decreases i
  {
    var p := Parent(i);
    if Rises(mode, compare, t[i].Key, t[p].Key) && p > 0 {
      UpToRoot(Swap(t, i, p), p, mode, compare);
    }
  }

  /** Node `k` is `i` or one of its ancestors. */
  ghost predicate OnPath(k: nat, i: nat) {
    k == i || (i > 0 && OnPath(k, Parent(i)))
  }

  /** Whatever `CompareFunc` is: a pushed item stops at the first node of its path whose parent it does not
      rise above; the items it passes move down one node, and no other item moves. */
  lemma {:induction false} UpPath(s: seq<Item>, i: nat, mode: Mode, compare: (Address, Address) -> int)
    returns (k: nat)
    requires i < |s|
    ensures OnPath(k, i) && k <= i && Up(s, i, mode, compare)[k] == s[i]
    ensures k > 0 ==> !Rises(mode, compare, s[i].Key, s[Parent(k)].Key)
    ensures forall j :: 0 <= j < |s| && j != k ==>
      Up(s, i, mode, compare)[j] == if k < j <= i && OnPath(j, i) then s[Parent(j)] else s[j]
    ensures forall j :: k < j <= i && OnPath(j, i) ==> Rises(mode, compare, s[i].Key, s[Parent(j)].Key)
    decreases i
  {
    k := i;
    if i > 0 && Rises(mode, compare, s[i].Key, s[Parent(i)].Key) {
      k := UpPath(Swap(s, i, Parent(i)), Parent(i), mode, compare);
      forall j: nat | OnPath(j, Parent(i)) ensures j <= Parent(i) {
        PathBelow(j, Parent(i));
      }
    }
  }

  lemma {:induction false} PathBelow(k: nat, i: nat)
    requires OnPath(k, i)
    ensures k <= i
    decreases i
  {
    if k != i {
      PathBelow(k, Parent(i));
    }
  }

  /** After a pop the root is the former last item, unless a child of the root has a better key; of equally
      good children it is the left one. */
  lemma RootAfterPop(s: seq<Item>, mode: Mode)
    requires |s| >= 2
    ensures var n, root := |s| - 1, Popped(s, mode)[0];
            && (root == s[n] || (n > 1 && root == s[1]) || (n > 2 && root == s[2]))
            && Leq(mode, root.Key, s[n].Key)
            && (n > 1 ==> Leq(mode, root.Key, s[1].Key))
            && (n > 2 ==> Leq(mode, root.Key, s[2].Key))
            && (root != s[n] ==> Above(mode, root.Key, s[n].Key))
            && (n > 2 && root != s[n] && root != s[1] ==> Above(mode, root.Key, s[1].Key))
  {
    var n := |s| - 1;
    var r := s[..n][0 := s[n]];
    var m := Best(r, 0, mode);
    if m > 0 {
      DownBelow(Swap(r, 0, m), m, mode);
    }
  }

  lemma {:induction false} DownBelow(s: seq<Item>, i: nat, mode: Mode)
    requires 0 < i < |s|
    ensures Down(s, i, mode)[0] == s[0]
    decreases |s| - i
  {
    var m := Best(s, i, mode);
    if m != i {
      DownBelow(Swap(s, i, m), m, mode);
    }
  }

  /** Popping takes an extreme item and leaves a heap of the others. */
  lemma PoppedIsHeap(s: seq<Item>, mode: Mode)
    requires s != [] && Heap(s, mode)
    ensures Heap(Popped(s, mode), mode) && multiset(s) == multiset(Popped(s, mode)) + multiset{s[0]}
    ensures forall item :: item in s ==> Leq(mode, s[0].Key, item.Key)
  {
    PoppedPermutes(s, mode);
    var n := |s| - 1;
    forall item | item in s ensures Leq(mode, s[0].Key, item.Key) {
      var i :| 0 <= i < |s| && s[i] == item;
      RootIsExtreme(s, mode, i);
    }
    if n > 0 {
      var r := s[..n][0 := s[n]];
      forall j | 0 < j < |r| && Parent(j) != 0 ensures OrderedAt(r, mode, j) {
        assert OrderedAt(s, mode, j);
      }
      DownOrders(r, 0, mode);
    }
  }

  lemma PoppedPermutes(s: seq<Item>, mode: Mode)
    requires s != []
    ensures multiset(s) == multiset(Popped(s, mode)) + multiset{s[0]}
  {
    var n := |s| - 1;
    assert s == s[..n] + [s[n]];
    if n > 0 {
      var r := s[..n][0 := s[n]];
      DownPermutes(r, 0, mode);
      assert multiset(r) == multiset(s[..n]) - multiset{s[0]} + multiset{s[n]};
    }
  }

  /** The items in the order in which popping yields them. */
  function Drained(s: seq<Item>, mode: Mode): seq<Item>
    decreases |s|
  {
    if s == [] then [] else [s[0]] + Drained(Popped(s, mode), mode)
  }

  ghost predicate Sorted(s: seq<Item>, mode: Mode) {
    forall i, j :: 0 <= i < j < |s| ==> Leq(mode, s[i].Key, s[j].Key)
  }

  lemma {:induction false} DrainedIsSorted(s: seq<Item>, mode: Mode)
    requires Heap(s, mode)
    ensures Sorted(Drained(s, mode), mode) && multiset(Drained(s, mode)) == multiset(s)
    decreases |s|
  {
    hide Popped, Heap;
    if s != [] {
      PoppedIsHeap(s, mode);
      var d := Drained(Popped(s, mode), mode);
      DrainedIsSorted(Popped(s, mode), mode);
      forall i | 0 <= i < |d| ensures Leq(mode, s[0].Key, d[i].Key) {
        assert d[i] in multiset(d);
        assert d[i] in multiset(s);
      }
    }
  }

  // ---------- The heap in its array ----------

  class BHeap {
    const CompareFunc: (Address, Address) -> int
    const Items: array<Item>
    var Count: nat

    ghost predicate Valid()
      reads this
    {
      Count <= Items.Length && Items.Length > 0
    }

    ghost function Contents(): seq<Item>
      requires Valid()
      reads this, Items
    {
      Items[..Count]
    }

    constructor Init(items: array<Item>, compareFunc: (Address, Address) -> int)
      requires items.Length > 0
      ensures Valid() && Contents() == [] && Items == items && CompareFunc == compareFunc
    {
      Items := items;
      CompareFunc := compareFunc;
      Count := 0;
    }

    method PushMin(key: Address, user: Address)
      requires Valid()
      modifies this`Count, Items
      ensures Valid()
      ensures old(Count) == Items.Length ==> Contents() == old(Contents())
      ensures old(Count) < Items.Length ==>
        && Contents() == Pushed(old(Contents()), Item(key, user), Min, CompareFunc)
        && multiset(Contents()) == multiset(old(Contents())) + multiset{Item(key, user)}
        && (Agrees(CompareFunc) && Heap(old(Contents()), Min) ==> Heap(Contents(), Min))
    {
      if Count == Items.Length {
        return;
      }
      ghost var s, item := Contents(), Item(key, user);
      var index := Count;
      Items[index] := Item(key, user);
      assert Items[..Count + 1] == s + [item];
      while index > 0
        invariant index <= Count == old(Count) < Items.Length
        invariant Up(Items[..Count + 1], index, Min, CompareFunc) == Pushed(s, item, Min, CompareFunc)
      {
        var parentIdx := (index - 1) / 2;
        var cur, parent := Items[index], Items[parentIdx];
        ghost var before := Items[..Count + 1];
        if CompareFunc(cur.Key, parent.Key) < 0 {
          Items[index] := parent;
          Items[parentIdx] := cur;
          assert Items[..Count + 1] == Swap(before, index, parentIdx);
        } else {
          break;
        }
        index := parentIdx;
      }
      Count := Count + 1;
      PushedPermutes(s, item, Min, CompareFunc);
      if Agrees(CompareFunc) && Heap(s, Min) {
        PushedIsHeap(s, item, Min, CompareFunc);
      }
    }

    method PushMax(key: Address, user: Address)
      requires Valid()
      modifies this`Count, Items
      ensures Valid()
      ensures old(Count) == Items.Length ==> Contents() == old(Contents())
      ensures old(Count) < Items.Length ==>
        && Contents() == Pushed(old(Contents()), Item(key, user), Max, CompareFunc)
        && multiset(Contents()) == multiset(old(Contents())) + multiset{Item(key, user)}
        && (Agrees(CompareFunc) && Heap(old(Contents()), Max) ==> Heap(Contents(), Max))
    {
      if Count == Items.Length {
        return;
      }
      ghost var s, item := Contents(), Item(key, user);
      var index := Count;
      Items[index] := Item(key, user);
      assert Items[..Count + 1] == s + [item];
      while index > 0
        invariant index <= Count == old(Count) < Items.Length
        invariant Up(Items[..Count + 1], index, Max, CompareFunc) == Pushed(s, item, Max, CompareFunc)
      {
        var parentIdx := (index - 1) / 2;
        var cur, parent := Items[index], Items[parentIdx];
        ghost var before := Items[..Count + 1];
        if CompareFunc(cur.Key, parent.Key) >= 0 {
          Items[index] := parent;
          Items[parentIdx] := cur;
          assert Items[..Count + 1] == Swap(before, index, parentIdx);
        } else {
          break;
        }
        index := parentIdx;
      }
      Count := Count + 1;
      PushedPermutes(s, item, Max, CompareFunc);
      if Agrees(CompareFunc) && Heap(s, Max) {
        PushedIsHeap(s, item, Max, CompareFunc);
      }
    }

    method PopMin() returns (result: Item)
      requires Valid() && Count > 0
      modifies this`Count, Items
      ensures Valid() && Count == old(Count) - 1
      ensures result == old(Contents())[0] && Contents() == Popped(old(Contents()), Min)
    {
      result := Items[0];
      ghost var s := Contents();
      var last := Count - 1;
      Items[0] := Items[last];
      Count := last;
      assert last > 0 ==> Contents() == s[..last][0 := s[last]];
      HeapifyMin(0);
    }

    /** An empty heap yields a null item. */
    method PopMax() returns (result: Item)
      requires Valid()
      modifies this`Count, Items
      ensures Valid()
      ensures old(Count) == 0 ==> result == Item(0, 0) && Contents() == old(Contents())
      ensures old(Count) > 0 ==> result == old(Contents())[0] && Contents() == Popped(old(Contents()), Max)
    {
      if Count <= 0 {
        return Item(0, 0);
      }
      result := Items[0];
      ghost var s := Contents();
      var last := Count - 1;
      Items[0] := Items[last];
      Count := last;
      assert last > 0 ==> Contents() == s[..last][0 := s[last]];
      HeapifyMax(0);
    }

    method HeapifyMin(start: nat)
      requires Valid() && (start < Count || (start == 0 && Count == 0))
      modifies Items
      ensures Contents() == if Count == 0 then [] else Down(old(Contents()), start, Min)
    {
      var index, min := start, start;
      var minItem := Items[index];
      ghost var s := Contents();
      while 2 * index + 1 < Count
        invariant min == index && (index < Count || Count == 0)
        invariant Count > 0 ==> Down(Contents(), index, Min) == Down(s, start, Min) && Items[index] == minItem
        decreases Count - index
      {
        var left, right := 2 * index + 1, 2 * index + 2;
        if Items[left].Key < Items[min].Key {
          min := left;
        }
        if right < Count && Items[right].Key < Items[min].Key {
          min := right;
        }
        assert min == Best(Contents(), index, Min);
        if min == index {
          break;
        }
        ghost var before := Contents();
        Items[index] := Items[min];
        Items[min] := minItem;
        assert Contents() == Swap(before, index, min);
        index := min;
      }
    }

    method HeapifyMax(start: nat)
      requires Valid() && (start < Count || (start == 0 && Count == 0))
      modifies Items
      ensures Contents() == if Count == 0 then [] else Down(old(Contents()), start, Max)
    {
      var index, max := start, start;
      var maxItem := Items[index];
      ghost var s := Contents();
      while 2 * index + 1 < Count
        invariant max == index && (index < Count || Count == 0)
        invariant Count > 0 ==> Down(Contents(), index, Max) == Down(s, start, Max) && Items[index] == maxItem
        decreases Count - index
      {
        var left, right := 2 * index + 1, 2 * index + 2;
        if Items[left].Key > Items[max].Key {
          max := left;
        }
        if right < Count && Items[right].Key > Items[max].Key {
          max := right;
        }
        assert max == Best(Contents(), index, Max);
        if max == index {
          break;
        }
        ghost var before := Contents();
        Items[index] := Items[max];
        Items[max] := maxItem;
        assert Contents() == Swap(before, index, max);
        index := max;
      }
    }
  }

  method Pop(heap: BHeap, mode: Mode) returns (item: Item)
    requires heap.Valid() && heap.Count > 0
    modifies heap`Count, heap.Items
    ensures heap.Valid() && heap.Count == old(heap.Count) - 1
    ensures item == old(heap.Contents())[0] && heap.Contents() == Popped(old(heap.Contents()), mode)
  {
    if mode.Min? {
      item := heap.PopMin();
    } else {
      item := heap.PopMax();
    }
  }

  /** Popping a heap until it is empty yields its items in order. */
  method Drain(heap: BHeap, mode: Mode) returns (out: seq<Item>)
    requires heap.Valid() && Heap(heap.Contents(), mode)
    modifies heap`Count, heap.Items
    ensures heap.Valid() && heap.Contents() == []
    ensures Sorted(out, mode) && multiset(out) == multiset(old(heap.Contents()))
  {
    hide Popped, Sorted, Heap, Drained;
    DrainedIsSorted(heap.Contents(), mode);
    ghost var all := Drained(heap.Contents(), mode);
    out := [];
    while heap.Count > 0
      invariant heap.Valid() && out + Drained(heap.Contents(), mode) == all
      decreases heap.Count
    {
      DrainStep(out, heap.Contents(), mode);
      var item := Pop(heap, mode);
      out := out + [item];
    }
    DrainStep(out, heap.Contents(), mode);
  }

  lemma DrainStep(out: seq<Item>, s: seq<Item>, mode: Mode)
    ensures s == [] ==> out + Drained(s, mode) == out
    ensures s != [] ==> out + Drained(s, mode) == (out + [s[0]]) + Drained(Popped(s, mode), mode)
  {
    hide Popped;
    if s == [] {
      assert out + [] == out;
    } else {
      MoveOver(out, s[0], Drained(Popped(s, mode), mode));
    }
  }

  lemma MoveOver(out: seq<Item>, item: Item, rest: seq<Item>)
    ensures out + ([item] + rest) == (out + [item]) + rest
  {
  }
}
