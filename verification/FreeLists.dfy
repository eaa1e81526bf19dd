/** The memory picture behind the general-purpose allocator: the used part of the buffer as a row of
    tiles, and the doubly linked free lists threaded through the headers of the free ones. */
module FreeLists {
  import opened Base

  const BUCKETS: nat := 16
  const HEADER: nat := 24

  /** A block header. Address 0 is the null pointer. */
  datatype MemNode = MemNode(Size: nat, Next: nat, Prev: nat)

  /** A block of the bucket's size; `request` is what the holder of a live block asked for. */
  datatype Tile = Tile(addr: nat, bucket: nat, live: bool, request: nat)

  function BucketSize(i: nat): (r: nat)
    ensures r > 0
  {
    Pow2(i + 8)
  }

  ghost predicate TileAt(tiles: seq<Tile>, k: nat, end: nat)
    requires k < |tiles|
  {
    tiles[k].addr + BucketSize(tiles[k].bucket) == if k + 1 < |tiles| then tiles[k + 1].addr else end
  }

  /** The tiles partition `[from, end)`. */
  ghost predicate Tiled(tiles: seq<Tile>, from: nat, end: nat) {
    && from == (if tiles == [] then end else tiles[0].addr)
    && forall k :: 0 <= k < |tiles| ==> TileAt(tiles, k, end)
  }

  /** The free tiles of bucket `i`, by address. */
  ghost function FreeList(tiles: seq<Tile>, i: nat): seq<nat> {
    if tiles == [] then []
    else (if !tiles[0].live && tiles[0].bucket == i then [tiles[0].addr] else []) + FreeList(tiles[1..], i)
  }

  ghost predicate LinkAt(nodes: map<nat, MemNode>, list: seq<nat>, k: nat)
    requires k < |list|
  {
    && list[k] in nodes
    && nodes[list[k]].Next == (if k + 1 < |list| then list[k + 1] else 0)
    && nodes[list[k]].Prev == (if k > 0 then list[k - 1] else 0)
  }

  /** Following `Next` from `head` visits exactly `list`, and `Prev` leads back. */
  ghost predicate Linked(nodes: map<nat, MemNode>, head: nat, list: seq<nat>) {
    && head == (if list == [] then 0 else list[0])
    && forall k :: 0 <= k < |list| ==> LinkAt(nodes, list, k)
  }

  ghost predicate Ascending(list: seq<nat>) {
    (forall k :: 0 <= k < |list| ==> list[k] > 0) && forall j, k :: 0 <= j < k < |list| ==> list[j] < list[k]
  }

  // ---------- Tiles ----------

  lemma {:induction false} TilesApart(tiles: seq<Tile>, from: nat, end: nat, j: nat, k: nat)
    requires Tiled(tiles, from, end) && j < k < |tiles|
    ensures tiles[j].addr + BucketSize(tiles[j].bucket) <= tiles[k].addr
  {
    assert TileAt(tiles, k - 1, end);
    if j < k - 1 {
      TilesApart(tiles, from, end, j, k - 1);
    }
  }

  lemma {:induction false} TilesInside(tiles: seq<Tile>, from: nat, end: nat, k: nat)
    requires Tiled(tiles, from, end) && k < |tiles|
    ensures from <= tiles[k].addr && tiles[k].addr + BucketSize(tiles[k].bucket) <= end
  {
    if k > 0 {
      TilesApart(tiles, from, end, 0, k);
    }
    var last := |tiles| - 1;
    assert TileAt(tiles, last, end);
    if k < last {
      TilesApart(tiles, from, end, k, last);
    }
  }

  lemma TilesDrop(tiles: seq<Tile>, from: nat, end: nat)
    requires Tiled(tiles, from, end) && tiles != []
    ensures Tiled(tiles[1..], from + BucketSize(tiles[0].bucket), end)
  {
    assert TileAt(tiles, 0, end);
    forall k | 0 <= k < |tiles[1..]| ensures TileAt(tiles[1..], k, end) {
      assert TileAt(tiles, k + 1, end);
    }
  }

  lemma TilesPrepend(tiles: seq<Tile>, from: nat, end: nat, t: Tile)
    requires Tiled(tiles, from, end) && t.addr + BucketSize(t.bucket) == from
    ensures Tiled([t] + tiles, t.addr, end)
  {
    forall k | 0 <= k < |[t] + tiles| ensures TileAt([t] + tiles, k, end) {
      assert k > 0 ==> TileAt(tiles, k - 1, end);
    }
  }

  lemma TilesRelabel(tiles: seq<Tile>, from: nat, end: nat, k: nat, t: Tile)
    requires Tiled(tiles, from, end) && k < |tiles| && t.addr == tiles[k].addr && t.bucket == tiles[k].bucket
    ensures Tiled(tiles[k := t], from, end)
  {
    var tiles' := tiles[k := t];
    forall j | 0 <= j < |tiles| ensures TileAt(tiles', j, end) {
      assert TileAt(tiles, j, end);
    }
  }

  // ---------- Free lists ----------

  lemma {:induction false} FreeListConcat(a: seq<Tile>, b: seq<Tile>, i: nat)
    ensures FreeList(a + b, i) == FreeList(a, i) + FreeList(b, i)
  {
    if a == [] {
      assert a + b == b;
    } else {
      assert (a + b)[1..] == a[1..] + b;
      FreeListConcat(a[1..], b, i);
    }
  }

  /** The part that tile `k` contributes to a free list. */
  ghost function Own(t: Tile, i: nat): seq<nat> {
    if !t.live && t.bucket == i then [t.addr] else []
  }

  lemma FreeListSplit(tiles: seq<Tile>, k: nat, t: Tile, i: nat)
    requires k < |tiles|
    ensures FreeList(tiles[k := t], i) == FreeList(tiles[..k], i) + Own(t, i) + FreeList(tiles[k + 1..], i)
  {
    assert tiles[k := t] == tiles[..k] + ([t] + tiles[k + 1..]);
    FreeListConcat(tiles[..k], [t] + tiles[k + 1..], i);
    assert ([t] + tiles[k + 1..])[1..] == tiles[k + 1..];
  }

  lemma {:induction false} FreeListMember(tiles: seq<Tile>, i: nat, p: nat) returns (k: nat)
    requires p < |FreeList(tiles, i)|
    ensures k < |tiles| && tiles[k].addr == FreeList(tiles, i)[p] && !tiles[k].live && tiles[k].bucket == i
  {
    if !tiles[0].live && tiles[0].bucket == i {
      if p == 0 {
        k := 0;
      } else {
        k := FreeListMember(tiles[1..], i, p - 1);
        k := k + 1;
      }
    } else {
      k := FreeListMember(tiles[1..], i, p);
      k := k + 1;
    }
  }

  /** A free list is strictly address-ascending. */
  lemma {:induction false} FreeListAscends(tiles: seq<Tile>, from: nat, end: nat, i: nat)
    requires Tiled(tiles, from, end) && from > 0
    ensures Ascending(FreeList(tiles, i))
    ensures forall p :: 0 <= p < |FreeList(tiles, i)| ==> from <= FreeList(tiles, i)[p]
    decreases |tiles|
  {
    if tiles != [] {
      TilesDrop(tiles, from, end);
      FreeListAscends(tiles[1..], from + BucketSize(tiles[0].bucket), end, i);
    }
  }

  /** Free lists of different buckets, and a live block and a free list, share no address. */
  lemma NotInFreeList(tiles: seq<Tile>, from: nat, end: nat, k: nat, i: nat)
    requires Tiled(tiles, from, end) && k < |tiles| && (tiles[k].live || tiles[k].bucket != i)
    ensures tiles[k].addr !in FreeList(tiles, i)
  {
    var list := FreeList(tiles, i);
    forall p | 0 <= p < |list| ensures list[p] != tiles[k].addr {
      var j := FreeListMember(tiles, i, p);
      if j < k {
        TilesApart(tiles, from, end, j, k);
      } else if k < j {
        TilesApart(tiles, from, end, k, j);
      }
    }
  }

  lemma FreeListsDisjoint(tiles: seq<Tile>, from: nat, end: nat, i: nat, j: nat, a: nat)
    requires Tiled(tiles, from, end) && i != j && a in FreeList(tiles, i)
    ensures a !in FreeList(tiles, j)
  {
    var p :| 0 <= p < |FreeList(tiles, i)| && FreeList(tiles, i)[p] == a;
    var k := FreeListMember(tiles, i, p);
    NotInFreeList(tiles, from, end, k, j);
  }

  /** Around a live block at tile `k`, the free list of its bucket splits by address. */
  lemma FreeListAround(tiles: seq<Tile>, from: nat, end: nat, k: nat, i: nat)
    requires Tiled(tiles, from, end) && k < |tiles| && tiles[k].live
    ensures FreeList(tiles, i) == FreeList(tiles[..k], i) + FreeList(tiles[k + 1..], i)
    ensures AllEndBy(FreeList(tiles[..k], i), BucketSize(i), tiles[k].addr)
    ensures AllFrom(FreeList(tiles[k + 1..], i), tiles[k].addr + BucketSize(tiles[k].bucket))
  {
    FreeListSplit(tiles, k, tiles[k], i);
    assert tiles[k := tiles[k]] == tiles;
    var pre, post := FreeList(tiles[..k], i), FreeList(tiles[k + 1..], i);
    forall p | 0 <= p < |pre| ensures pre[p] + BucketSize(i) <= tiles[k].addr {
      var j := FreeListMember(tiles[..k], i, p);
      TilesApart(tiles, from, end, j, k);
    }
    forall p | 0 <= p < |post| ensures tiles[k].addr + BucketSize(tiles[k].bucket) <= post[p] {
      var j := FreeListMember(tiles[k + 1..], i, p);
      TilesApart(tiles, from, end, k, k + 1 + j);
    }
  }

  ghost predicate AllEndBy(list: seq<nat>, size: nat, bound: nat) {
    forall p :: 0 <= p < |list| ==> list[p] + size <= bound
  }

  ghost predicate AllFrom(list: seq<nat>, bound: nat) {
    forall p :: 0 <= p < |list| ==> bound <= list[p]
  }

  /** A listed block that lies at the very start of the tiles heads its list. */
  lemma LowestIsHead(tiles: seq<Tile>, from: nat, end: nat, i: nat, p: nat)
    requires Tiled(tiles, from, end) && from > 0 && p < |FreeList(tiles, i)| && FreeList(tiles, i)[p] == from
    ensures p == 0 && tiles != [] && !tiles[0].live && tiles[0].bucket == i
    ensures FreeList(tiles, i)[1..] == FreeList(tiles[1..], i)
  {
    FreeListAscends(tiles, from, end, i);
    var list := FreeList(tiles, i);
    assert from <= list[0] <= list[p];
    var k := FreeListMember(tiles, i, p);
    if k > 0 {
      TilesApart(tiles, from, end, 0, k);
    }
  }

  // ---------- Links ----------

  lemma LinkedFrame(nodes: map<nat, MemNode>, nodes': map<nat, MemNode>, head: nat, list: seq<nat>)
    requires Linked(nodes, head, list)
    requires forall a :: a in list ==> a in nodes' && (a in nodes ==> nodes'[a] == nodes[a])
    ensures Linked(nodes', head, list)
  {
    forall k | 0 <= k < |list| ensures LinkAt(nodes', list, k) {
      assert LinkAt(nodes, list, k);
    }
  }

  lemma LinkedNodes(nodes: map<nat, MemNode>, head: nat, list: seq<nat>)
    requires Linked(nodes, head, list)
    ensures forall k :: 0 <= k < |list| ==> list[k] in nodes
  {
    forall k | 0 <= k < |list| ensures list[k] in nodes {
      assert LinkAt(nodes, list, k);
    }
  }

  ghost function Without(list: seq<nat>, m: nat): seq<nat>
    requires m < |list|
  {
    list[..m] + list[m + 1..]
  }

  ghost function With(list: seq<nat>, m: nat, a: nat): seq<nat>
    requires m <= |list|
  {
    list[..m] + [a] + list[m..]
  }

  /** A header after its `Next` and `Prev` fields were redirected. */
  ghost predicate Redirected(nodes: map<nat, MemNode>, nodes': map<nat, MemNode>, a: nat, next: nat, prev: nat) {
    a in nodes && a in nodes' && nodes'[a] == nodes[a].(Next := next, Prev := prev)
  }

  lemma Unlinked(nodes: map<nat, MemNode>, nodes': map<nat, MemNode>, list: seq<nat>, m: nat)
    requires m < |list| && (forall k :: 0 <= k < |list| ==> list[k] in nodes)
    requires forall k :: 0 <= k < |list| ==> LinkAt(nodes, list, k)
    requires m > 0 ==>
      Redirected(nodes, nodes', list[m - 1], if m + 1 < |list| then list[m + 1] else 0, nodes[list[m - 1]].Prev)
    requires m + 1 < |list| ==>
      Redirected(nodes, nodes', list[m + 1], nodes[list[m + 1]].Next, if m > 0 then list[m - 1] else 0)
    requires forall k :: 0 <= k < |list| && k != m - 1 && k != m + 1 ==>
      list[k] in nodes' && nodes'[list[k]] == nodes[list[k]]
    ensures forall k :: 0 <= k < |list| - 1 ==> LinkAt(nodes', Without(list, m), k)
  {
    var rest := Without(list, m);
    forall k | 0 <= k < |rest| ensures LinkAt(nodes', rest, k) {
      assert LinkAt(nodes, list, if k < m then k else k + 1);
    }
  }

  lemma Inserted(nodes: map<nat, MemNode>, nodes': map<nat, MemNode>, list: seq<nat>, m: nat, a: nat)
    requires m < |list| && (forall k :: 0 <= k < |list| ==> list[k] in nodes)
    requires forall k :: 0 <= k < |list| ==> LinkAt(nodes, list, k)
    requires Redirected(nodes, nodes', a, list[m], if m > 0 then list[m - 1] else 0)
    requires Redirected(nodes, nodes', list[m], nodes[list[m]].Next, a)
    requires m > 0 ==> Redirected(nodes, nodes', list[m - 1], a, nodes[list[m - 1]].Prev)
    requires forall k :: 0 <= k < |list| && k != m - 1 && k != m ==>
      list[k] in nodes' && nodes'[list[k]] == nodes[list[k]]
    ensures forall k :: 0 <= k <= |list| ==> LinkAt(nodes', With(list, m, a), k)
  {
    var more := With(list, m, a);
    forall k | 0 <= k < |more| ensures LinkAt(nodes', more, k) {
      assert k != m ==> LinkAt(nodes, list, if k < m then k else k - 1);
    }
  }

  // ---------- Relabelling one tile ----------

  /** Where the address of live tile `k` belongs in its bucket's list, and that the lists of the other
      buckets do not notice when it is freed. */
  lemma FreeingTile(tiles: seq<Tile>, from: nat, end: nat, k: nat) returns (m: nat)
    requires Tiled(tiles, from, end) && k < |tiles| && tiles[k].live
    ensures var i, list := tiles[k].bucket, FreeList(tiles, tiles[k].bucket);
            && m <= |list|
            && FreeList(tiles[k := tiles[k].(live := false)], i) == With(list, m, tiles[k].addr)
            && (forall p :: 0 <= p < m ==> list[p] + BucketSize(i) <= tiles[k].addr)
            && (forall p :: m <= p < |list| ==> tiles[k].addr + BucketSize(i) <= list[p])
    ensures forall j :: j != tiles[k].bucket ==>
      FreeList(tiles[k := tiles[k].(live := false)], j) == FreeList(tiles, j)
  {
    var i, t := tiles[k].bucket, tiles[k].(live := false);
    var pre, post := FreeList(tiles[..k], i), FreeList(tiles[k + 1..], i);
    m := |pre|;
    FreeListAround(tiles, from, end, k, i);
    FreeListSplit(tiles, k, t, i);
    var list := FreeList(tiles, i);
    assert list[..m] == pre && list[m..] == post;
    forall p | m <= p < |list| ensures tiles[k].addr + BucketSize(i) <= list[p] {
      assert list[p] == post[p - m];
    }
    forall j | j != i ensures FreeList(tiles[k := t], j) == FreeList(tiles, j) {
      FreeListSplit(tiles, k, t, j);
      FreeListSplit(tiles, k, tiles[k], j);
      assert tiles[k := tiles[k]] == tiles;
    }
  }

  lemma {:induction false} FreeListNone(tiles: seq<Tile>, i: nat)
    requires forall k :: 0 <= k < |tiles| ==> tiles[k].live || tiles[k].bucket != i
    ensures FreeList(tiles, i) == []
  {
    if tiles != [] {
      FreeListNone(tiles[1..], i);
    }
  }

  /** Taking the lowest free tile of a bucket takes the head of its list, and nothing from the others. */
  lemma TakingTile(tiles: seq<Tile>, k: nat, t: Tile)
    requires k < |tiles| && !tiles[k].live && t.live
    requires forall j :: 0 <= j < k ==> tiles[j].live || tiles[j].bucket != tiles[k].bucket
    ensures var list := FreeList(tiles, tiles[k].bucket);
            list != [] && list[0] == tiles[k].addr && FreeList(tiles[k := t], tiles[k].bucket) == list[1..]
    ensures forall j :: j != tiles[k].bucket ==> FreeList(tiles[k := t], j) == FreeList(tiles, j)
  {
    assert tiles[k := tiles[k]] == tiles;
    FreeListNone(tiles[..k], tiles[k].bucket);
    FreeListSplit(tiles, k, tiles[k], tiles[k].bucket);
    FreeListSplit(tiles, k, t, tiles[k].bucket);
    forall j | j != tiles[k].bucket ensures FreeList(tiles[k := t], j) == FreeList(tiles, j) {
      FreeListSplit(tiles, k, t, j);
      FreeListSplit(tiles, k, tiles[k], j);
    }
  }

  /** Dropping the lowest tile, which is free, takes the head of its list, and nothing from the others. */
  lemma DroppingTile(tiles: seq<Tile>)
    requires tiles != [] && !tiles[0].live
    ensures var list := FreeList(tiles, tiles[0].bucket);
            list != [] && FreeList(tiles[1..], tiles[0].bucket) == list[1..]
    ensures forall j :: j != tiles[0].bucket ==> FreeList(tiles[1..], j) == FreeList(tiles, j)
  {
  }
}
