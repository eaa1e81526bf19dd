/** The general-purpose allocator of Lib/HeapAllocator.h on its bucket path: a region that is carved
    from the top down, and power-of-two free lists whose lowest blocks merge back lazily. */
module HeapAllocator {
  import opened Base
  import opened FreeLists

  const GENERAL_PURPOSE_MIN: nat := 512
  const GENERAL_PURPOSE_MAX: nat := 0x200_0000
  const BUCKET_MAX: nat := 0x80_0000  // the block size of the last bucket

  // ---------- Sizes ----------

  /** The block size for a request. */
  function RoundedSize(size: nat): nat {
    CeilPow2(AlignSize(size + HEADER, GENERAL_PURPOSE_MIN))
  }

  /** The bucket of a power-of-two block size: the position of its bit, less 8. */
  function ConvertAllocSizeToIndex(allocSize: nat): nat
    requires allocSize >= GENERAL_PURPOSE_MIN
  {
    BitScanForward(allocSize / 256)
  }

  lemma PowerIndex(k: nat)
    requires k >= 9
    ensures Pow2(k) >= GENERAL_PURPOSE_MIN && ConvertAllocSizeToIndex(Pow2(k)) == k - 8
  {
    Pow2Constants();
    Pow2Monotone(9, k);
    Pow2Adds(8, k - 8);
    DivModUnique(Pow2(k), 256, Pow2(k - 8), 0);
    BitScanForwardOfPower(k - 8);
  }

  /** A request of at most 2^23 with its header gets a block that holds it, of exactly the size of its
      bucket, whose index is in 1..15. */
  lemma RequestFits(size: nat)
    requires size + HEADER <= BUCKET_MAX
    ensures GENERAL_PURPOSE_MIN <= RoundedSize(size) <= BUCKET_MAX && size + HEADER <= RoundedSize(size)
    ensures var i := ConvertAllocSizeToIndex(RoundedSize(size));
            1 <= i < BUCKETS && RoundedSize(size) == BucketSize(i)
    ensures CeilPow2(AlignSize(size + HEADER, GENERAL_PURPOSE_MIN)) == RoundedSize(size)
  {
    Pow2Constants();
    var s := AlignSize(size + HEADER, GENERAL_PURPOSE_MIN);
    assert PowerOfTwo(GENERAL_PURPOSE_MIN);
    AlignSizeLeastMultiple(size + HEADER, GENERAL_PURPOSE_MIN);
    AlignedBound(s, size + HEADER);
    CeilPow2Least(s);
    CeilPow2Bounded(s, 23);
    var k: nat :| CeilPow2(s) == Pow2(k);
    if k < 9 {
      Pow2Monotone(k + 1, 9);
    }
    if k > 23 {
      Pow2Monotone(24, k);
    }
    PowerIndex(k);
  }

  /** The bucket that serves a request. */
  function BucketOf(size: nat): (i: nat)
    requires size + HEADER <= BUCKET_MAX
    ensures 1 <= i < BUCKETS && size + HEADER <= BucketSize(i) == RoundedSize(size) <= BUCKET_MAX
  {
    RequestFits(size);
    ConvertAllocSizeToIndex(RoundedSize(size))
  }

  /** The buckets hold 512 bytes and twice as much each time, up to 2^23. */
  lemma BucketSizes(j: nat)
    requires 1 <= j < BUCKETS
    ensures BucketSize(1) == 512 && BucketSize(15) == BUCKET_MAX && BucketSize(j + 1) == 2 * BucketSize(j)
  {
    Pow2Constants();
  }

  /** A request gets the smallest block that holds it with its header. */
  lemma BucketIsSmallest(size: nat, j: nat)
    requires size + HEADER <= BUCKET_MAX && 1 <= j < BUCKETS
    ensures size + HEADER <= BucketSize(j) <==> BucketOf(size) <= j
  {
    hide RoundedSize, Pow2, BucketOf;
    var i := BucketOf(size);
    if i <= j {
      Pow2Monotone(i + 8, j + 8);
    } else {
      Pow2Monotone(j + 8, i + 8);
      if size + HEADER <= BucketSize(j) {
        RoundedIsLeast(size, j);
      }
    }
  }

  lemma RoundedIsLeast(size: nat, j: nat)
    requires size + HEADER <= BUCKET_MAX && 1 <= j < BUCKETS && size + HEADER <= BucketSize(j)
    ensures RoundedSize(size) <= BucketSize(j)
  {
    var s := AlignSize(size + HEADER, GENERAL_PURPOSE_MIN);
    FiveTwelve();
    AlignSizeLeastMultiple(size + HEADER, GENERAL_PURPOSE_MIN);
    Pow2Adds(9, j - 1);
    hide AlignSize, CeilPow2, Pow2;
    BelowMultiple(s, size + HEADER, Pow2(j - 1));
    CeilPow2Least(s);
  }

  lemma FiveTwelve()
    ensures PowerOfTwo(GENERAL_PURPOSE_MIN) && Pow2(9) == 512
  {
    Pow2Constants();
  }

  lemma BelowMultiple(s: nat, size: nat, m: nat)
    requires size <= 512 * m && s % 512 == 0 && s < size + 512
    ensures s <= 512 * m
  {
  }

  lemma AlignedBound(s: nat, size: nat)
    requires 0 < size <= s < size + 512 && s % 512 == 0 && size <= BUCKET_MAX
    ensures 512 <= s <= BUCKET_MAX
  {
  }

  /** Of the power-of-two sizes the bucket branch accepts, exactly those up to 2^23 have a bucket. */
  lemma BucketExistsIff(k: nat)
    requires 9 <= k <= 25
    ensures GENERAL_PURPOSE_MIN <= Pow2(k) <= GENERAL_PURPOSE_MAX
    ensures ConvertAllocSizeToIndex(Pow2(k)) < BUCKETS <==> Pow2(k) <= BUCKET_MAX
  {
    Pow2Constants();
    PowerIndex(k);
    Pow2Monotone(k, 25);
    if k <= 23 {
      Pow2Monotone(k, 23);
    } else {
      Pow2Monotone(24, k);
    }
  }

  /** The exhaustion test: the lower end of the new block, on 64-bit words, is below the buffer. */
  function OutOfMemory(offset: nat, allocSize: nat, mem: nat): bool {
    (offset + U64 - allocSize) % U64 < mem
  }

  /** The test for exhaustion is right if and only if the subtraction does not wrap past zero to an
      address above the buffer's start; a buffer that starts at `allocSize` or higher is safe. */
  lemma OutOfMemoryIff(offset: nat, allocSize: nat, mem: nat)
    requires mem <= offset < U64 && allocSize < U64
    ensures (OutOfMemory(offset, allocSize, mem) <==> offset < mem + allocSize)
       <==> (allocSize <= offset || offset + U64 - allocSize < mem)
    ensures allocSize <= mem ==> allocSize <= offset
  {
  }

  // ---------- What allocating and freeing do to the tiles ----------

  datatype Layout = Layout(offset: nat, tiles: seq<Tile>)

  function FirstFree(tiles: seq<Tile>, i: nat): (k: nat)
    ensures k <= |tiles| && (k < |tiles| ==> !tiles[k].live && tiles[k].bucket == i)
    ensures forall j :: 0 <= j < k ==> tiles[j].live || tiles[j].bucket != i
  {
    if tiles == [] || (!tiles[0].live && tiles[0].bucket == i) then 0 else 1 + FirstFree(tiles[1..], i)
  }

  /** Take the lowest free tile of the bucket, or else carve one off below `offset`, or else fail. */
  function Allocated(x: Layout, mem: nat, i: nat, request: nat): Layout {
    var k := FirstFree(x.tiles, i);
    if k < |x.tiles| then x.(tiles := x.tiles[k := Tile(x.tiles[k].addr, i, true, request)])
    else if x.offset < mem + BucketSize(i) then x
    else Layout(x.offset - BucketSize(i), [Tile(x.offset - BucketSize(i), i, true, request)] + x.tiles)
  }

  /** The pointer handed out, or null. */
  function AllocatedAt(x: Layout, mem: nat, i: nat): nat {
    var k := FirstFree(x.tiles, i);
    if k < |x.tiles| then x.tiles[k].addr + HEADER
    else if x.offset < mem + BucketSize(i) then 0
    else x.offset - BucketSize(i) + HEADER
  }

  /** The lowest block joins the region. Any other block is listed; if the lowest block is on the same
      list, that one joins the region on the way. */
  function Freed(x: Layout, k: nat): Layout
    requires k < |x.tiles|
  {
    var i := x.tiles[k].bucket;
    if k == 0 then Layout(x.offset + BucketSize(i), x.tiles[1..])
    else
      var tiles := x.tiles[k := x.tiles[k].(live := false)];
      if !x.tiles[0].live && x.tiles[0].bucket == i then Layout(x.offset + BucketSize(i), tiles[1..])
      else x.(tiles := tiles)
  }

  ghost predicate TileOk(nodes: map<nat, MemNode>, t: Tile) {
    && 1 <= t.bucket < BUCKETS && t.addr in nodes && nodes[t.addr].Size == BucketSize(t.bucket)
    && (t.live ==> nodes[t.addr].Next == nodes[t.addr].Prev == 0 && t.request + HEADER <= BucketSize(t.bucket))
  }

  /** The used part `[from, end)` of the buffer is exactly partitioned into live and free blocks, and each
      bucket's list holds exactly the free blocks of its size, in address order, linked both ways. */
  ghost predicate Sound(nodes: map<nat, MemNode>, heads: seq<nat>, tiles: seq<Tile>, from: nat, end: nat) {
    && |heads| == BUCKETS && Tiled(tiles, from, end)
    && (forall k :: 0 <= k < |tiles| ==> TileOk(nodes, tiles[k]))
    && (forall i :: 0 <= i < BUCKETS ==> Linked(nodes, heads[i], FreeList(tiles, i)))
  }

  class GeneralPurposeAllocator {
    const Mem: nat
    const Size: nat
    var Offset: nat
    var Heads: seq<nat>               // Buckets[i].Head
    var Nodes: map<nat, MemNode>      // the headers in the buffer
    ghost var Tiles: seq<Tile>

    ghost predicate Valid()
      reads this
    {
      && BUCKET_MAX <= Mem <= Offset <= Mem + Size < U64 && |Heads| == BUCKETS
      && Sound(Nodes, Heads, Tiles, Offset, Mem + Size)
    }

    ghost function Now(): Layout
      reads this
    {
      Layout(Offset, Tiles)
    }

    /** `GeneralPurposeCreate`. A null or tiny buffer is an error that leaves everything zero. */
    constructor Create(buffer: nat, bytes: nat)
      requires buffer + bytes < U64
      ensures buffer == 0 || bytes <= HEADER ==> Mem == Size == Offset == 0 && Tiles == []
      ensures buffer != 0 && bytes > HEADER ==>
        Mem == buffer && Size == bytes && Now() == Layout(buffer + bytes, []) && (BUCKET_MAX <= buffer ==> Valid())
    {
      Heads := seq(BUCKETS, _ => 0);
      Nodes := map[];
      Tiles := [];
      if bytes == 0 || bytes <= HEADER || buffer == 0 {
        Mem, Size, Offset := 0, 0, 0;
      } else {
        Mem, Size, Offset := buffer, bytes, buffer + bytes;
      }
    }

    // ---------- List surgery ----------

    /** Unlinks `node`, the `m`-th of the list. */
    method RemoveMemNode(i: nat, node: nat, ghost list: seq<nat>, ghost m: nat)
      requires i < |Heads| && Linked(Nodes, Heads[i], list) && Ascending(list) && m < |list| && list[m] == node
      modifies this`Heads, this`Nodes
      ensures |Heads| == |old(Heads)| && Heads == old(Heads)[i := Heads[i]]
      ensures Linked(Nodes, Heads[i], Without(list, m))
      ensures Nodes.Keys == old(Nodes).Keys && node in Nodes && Nodes[node] == old(Nodes)[node]
      ensures forall a :: a in Nodes ==> Nodes[a].Size == old(Nodes)[a].Size
      ensures forall a :: a in Nodes && a !in list ==> Nodes[a] == old(Nodes)[a]
    {
      LinkedNodes(Nodes, Heads[i], list);
      assert LinkAt(Nodes, list, m);
      assert m > 0 ==> LinkAt(Nodes, list, m - 1);
      assert m + 1 < |list| ==> LinkAt(Nodes, list, m + 1);
      ghost var before := Nodes;
      var next, prev := Nodes[node].Next, Nodes[node].Prev;
      if prev != 0 {
        Nodes := Nodes[prev := Nodes[prev].(Next := next)];
      } else {
        Heads := Heads[i := next];
        if next != 0 {
          Nodes := Nodes[next := Nodes[next].(Prev := 0)];
        }
      }
      if next != 0 {
        Nodes := Nodes[next := Nodes[next].(Prev := prev)];
      } else if prev != 0 {
        Nodes := Nodes[prev := Nodes[prev].(Next := 0)];
      } else {
        Heads := Heads[i := 0];
      }
      Unlinked(before, Nodes, list, m);
    }

    /** Links `insert` in front of `curr`, the `m`-th of the list. */
    method InsertMemNodeBefore(i: nat, insert: nat, curr: nat, ghost list: seq<nat>, ghost m: nat)
      requires i < |Heads| && Linked(Nodes, Heads[i], list) && Ascending(list) && m < |list| && list[m] == curr
      requires insert > 0 && insert in Nodes && insert !in list && Nodes[insert].Prev == 0
      modifies this`Heads, this`Nodes
      ensures |Heads| == |old(Heads)| && Heads == old(Heads)[i := Heads[i]]
      ensures Linked(Nodes, Heads[i], With(list, m, insert))
      ensures Nodes.Keys == old(Nodes).Keys
      ensures forall a :: a in Nodes ==> Nodes[a].Size == old(Nodes)[a].Size
      ensures forall a :: a in Nodes && a !in list && a != insert ==> Nodes[a] == old(Nodes)[a]
    {
      LinkedNodes(Nodes, Heads[i], list);
      assert LinkAt(Nodes, list, m);
      assert m > 0 ==> LinkAt(Nodes, list, m - 1);
      ghost var before := Nodes;
      Nodes := Nodes[insert := Nodes[insert].(Next := curr)];
      if Nodes[curr].Prev == 0 {
        Heads := Heads[i := insert];
      } else {
        var prev := Nodes[curr].Prev;
        Nodes := Nodes[insert := Nodes[insert].(Prev := prev)];
        Nodes := Nodes[prev := Nodes[prev].(Next := insert)];
      }
      Nodes := Nodes[curr := Nodes[curr].(Prev := insert)];
      Inserted(before, Nodes, list, m, insert);
    }

    /** Links `node` behind `last`, the end of the list. */
    method AppendMemNode(i: nat, node: nat, last: nat, ghost list: seq<nat>)
      requires i < |Heads| && Linked(Nodes, Heads[i], list) && Ascending(list) && list != [] && list[|list| - 1] == last
      requires node > 0 && node in Nodes && node !in list && Nodes[node].Next == 0
      modifies this`Nodes
      ensures Linked(Nodes, Heads[i], With(list, |list|, node))
      ensures Nodes.Keys == old(Nodes).Keys
      ensures forall a :: a in Nodes ==> Nodes[a].Size == old(Nodes)[a].Size
      ensures forall a :: a in Nodes && a !in list && a != node ==> Nodes[a] == old(Nodes)[a]
    {
      ghost var before := Nodes;
      assert LinkAt(Nodes, list, |list| - 1);
      Nodes := Nodes[last := Nodes[last].(Next := node)];
      Nodes := Nodes[node := Nodes[node].(Prev := last)];
      ghost var more := With(list, |list|, node);
      forall k | 0 <= k < |more| ensures LinkAt(Nodes, more, k) {
        assert k < |list| ==> LinkAt(before, list, k);
      }
    }
  
    // ---------- Merging, listing, allocating, freeing ----------

    /** The head of list `i` lies at the very start of the tiles and joins the region. */
    method MergeLowest(i: nat)
      requires Valid() && i < BUCKETS && Heads[i] == Offset
      modifies this
      ensures Valid() && Now() == Merged(old(Now()), i) && |Tiles| + 1 == |old(Tiles)|
      ensures |FreeList(Tiles, i)| < |FreeList(old(Tiles), i)|
    {
      hide FreeList, BucketSize, Sound, Linked, Ascending;
      ghost var before, heads, from := Nodes, Heads, Offset;
      ghost var list := FreeList(Tiles, i);
      LowestTile(Nodes, Heads, Tiles, Offset, Mem + Size, i);
      var node := Heads[i];
      Offset := Offset + Nodes[node].Size;
      RemoveMemNode(i, node, list, 0);
      MergingKeeps(before, Nodes, heads, Heads, Tiles, from, Mem + Size, i);
      Tiles := Tiles[1..];
    }

    /** Lists the live block `node`, tile `tile`. On the way the walk merges the head of the list, if that
        lies at the very start of the tiles; no later block can. */
    method InsertMemNode(i: nat, node: nat, ghost tile: nat)
      requires Valid() && i < BUCKETS && 0 < tile < |Tiles|
      requires Tiles[tile].live && Tiles[tile].addr == node && Tiles[tile].bucket == i
      modifies this
      ensures Valid() && Now() == Freed(old(Now()), tile)
    {
      hide FreeList, BucketSize, Sound, Linked, Ascending, Freed, Merged, With;
      ghost var x := Now();
      ghost var k: nat, j: nat := tile, 0;
      FreedIsListed(x, tile);
      if Heads[i] == 0 {
        HeadOfList(Nodes, Heads, Tiles, Offset, Mem + Size, i);
        ListFirst(i, node, k);
        return;
      }
      var iter := Heads[i];
      HeadOfList(Nodes, Heads, Tiles, Offset, Mem + Size, i);
      while true
        invariant Valid() && k < |Tiles| && Tiles[k].live && Tiles[k].addr == node && Tiles[k].bucket == i
        invariant j < |FreeList(Tiles, i)| && iter == FreeList(Tiles, i)[j]
        invariant j > 0 ==> FreeList(Tiles, i)[j - 1] < node
        invariant j == 0 ==> Now() == x && k == tile && iter == Heads[i]
        invariant j > 0 ==> Now() == Merged(x, i) && k == tile - (|x.tiles| - |Tiles|)
        decreases |FreeList(Tiles, i)| - j
      {
        if iter == Offset {
          LowestOnlyHead(Nodes, Heads, Tiles, Offset, Mem + Size, i, j);
          MergeLowest(i);
          k := k - 1;
          iter := Heads[i];
          HeadOfList(Nodes, Heads, Tiles, Offset, Mem + Size, i);
          if iter == 0 {
            ListFirst(i, node, k);
            return;
          }
        } else if j == 0 {
          HeadAbove(Nodes, Heads, Tiles, Offset, Mem + Size, i);
        }
        assert Now() == Merged(x, i) && k == tile - (|x.tiles| - |Tiles|);
        var placed := PlaceAt(i, node, iter, k, j);
        if placed {
          return;
        }
        iter := Nodes[iter].Next;
        j := j + 1;
      }
    }

    /** One step of the walk: lists the live block in front of `iter`, the `j`-th of the list, or behind
        it if `iter` is the last, or moves on. */
    method PlaceAt(i: nat, node: nat, iter: nat, ghost k: nat, ghost j: nat) returns (placed: bool)
      requires Valid() && i < BUCKETS && k < |Tiles|
      requires Tiles[k].live && Tiles[k].addr == node && Tiles[k].bucket == i
      requires j < |FreeList(Tiles, i)| && iter == FreeList(Tiles, i)[j]
      requires j > 0 ==> FreeList(Tiles, i)[j - 1] < node
      modifies this`Heads, this`Nodes, this`Tiles
      ensures Valid() && (placed ==> Now() == Listed(old(Now()), k))
      ensures !placed ==>
        && Now() == old(Now()) && Heads == old(Heads) && Nodes == old(Nodes) && j + 1 < |FreeList(Tiles, i)|
        && iter < node && iter in Nodes && Nodes[iter].Next == FreeList(Tiles, i)[j + 1]
    {
      hide FreeList, BucketSize, Sound, Linked, Ascending, With;
      ghost var list := FreeList(Tiles, i);
      ghost var m := Walk(Nodes, Heads, Tiles, Offset, Mem + Size, k, j);
      assert iter != node;
      ghost var before, heads := Nodes, Heads;
      if iter < node {
        assert iter + Nodes[iter].Size <= node;  // so it was not merged before
        if Nodes[iter].Next != 0 {
          return false;
        }
        AppendMemNode(i, node, iter, list);
      } else {
        assert node + Nodes[node].Size <= iter;
        InsertMemNodeBefore(i, node, iter, list, j);
      }
      ListingKeeps(before, Nodes, heads, Heads, Tiles, Offset, Mem + Size, k);
      Tiles := Tiles[k := Tiles[k].(live := false)];
      return true;
    }

    method ListFirst(i: nat, node: nat, ghost k: nat)
      requires Valid() && i < BUCKETS && k < |Tiles| && FreeList(Tiles, i) == []
      requires Tiles[k].live && Tiles[k].addr == node && Tiles[k].bucket == i
      modifies this
      ensures Valid() && Now() == Listed(old(Now()), k)
    {
      hide FreeList, BucketSize, Sound;
      ghost var heads := Heads;
      ListingAlone(Nodes, Heads, Tiles, Offset, Mem + Size, k);
      Heads := Heads[i := node];
      ListingKeeps(Nodes, Nodes, heads, Heads, Tiles, Offset, Mem + Size, k);
      Tiles := Tiles[k := Tiles[k].(live := false)];
    }

    // ---------- The allocator's calls ----------

    /** Hands out a block that holds `size` bytes behind its header, or null. */
    method GeneralPurposeAlloc(size: nat) returns (ptr: nat)
      requires Valid() && 0 < size && size + HEADER <= BUCKET_MAX
      modifies this
      ensures Valid()
      ensures Now() == Allocated(old(Now()), Mem, BucketOf(size), size)
      ensures ptr == AllocatedAt(old(Now()), Mem, BucketOf(size))
      ensures AllocOutcome(old(Now()), Now(), Mem, BucketOf(size), size, ptr)
    {
      hide FreeList, BucketSize, Sound, RoundedSize, BucketOf, Allocated, AllocatedAt, AllocOutcome;
      AllocatedOutcome(this, BucketOf(size), size);
      var allocSize, i := FindBucket(size);
      if Heads[i] != 0 {
        ptr := TakeListed(i, size);
      } else {
        ptr := Carve(allocSize, i, size);
      }
    }

    /** Takes the head of a bucket's list. */
    method TakeListed(i: nat, ghost request: nat) returns (ptr: nat)
      requires Valid() && 1 <= i < BUCKETS && Heads[i] != 0 && request + HEADER <= BucketSize(i)
      modifies this
      ensures Valid()
      ensures Now() == Allocated(old(Now()), Mem, i, request) && ptr == AllocatedAt(old(Now()), Mem, i)
    {
      hide FreeList, BucketSize, Sound, Linked, Ascending, Without;
      ghost var before, heads, k := Nodes, Heads, FirstFree(Tiles, i);
      HeadOfList(Nodes, Heads, Tiles, Offset, Mem + Size, i);
      FirstFreeHeads(Tiles, i);
      ListIsLinked(Nodes, Heads, Tiles, Offset, Mem + Size, i);
      var newMemNode := Heads[i];
      RemoveMemNode(i, newMemNode, FreeList(Tiles, i), 0);
      Detached(Nodes, Heads[i], FreeList(Tiles, i));
      Nodes := Nodes[newMemNode := Nodes[newMemNode].(Next := 0, Prev := 0)];
      TakingKeeps(before, Nodes, heads, Heads, Tiles, Offset, Mem + Size, k, request);
      Tiles := Tiles[k := Tile(Tiles[k].addr, i, true, request)];
      return newMemNode + HEADER;
    }

    /** Carves a block off the region, if it is large enough. */
    method Carve(allocSize: nat, i: nat, ghost request: nat) returns (ptr: nat)
      requires Valid() && 1 <= i < BUCKETS && Heads[i] == 0
      requires request + HEADER <= BucketSize(i) == allocSize <= BUCKET_MAX
      modifies this
      ensures Valid()
      ensures Now() == Allocated(old(Now()), Mem, i, request) && ptr == AllocatedAt(old(Now()), Mem, i)
    {
      hide FreeList, BucketSize, Sound;
      HeadOfList(Nodes, Heads, Tiles, Offset, Mem + Size, i);
      FirstFreeHeads(Tiles, i);
      OutOfMemoryIff(Offset, allocSize, Mem);
      if OutOfMemory(Offset, allocSize, Mem) {
        return 0;
      }
      ghost var before := Nodes;
      Offset := Offset - allocSize;
      var newMemNode := Offset;
      Nodes := Nodes[newMemNode := MemNode(allocSize, 0, 0)];
      CarvingKeeps(before, Heads, Tiles, Offset, Mem + Size, i, request);
      Tiles := [Tile(Offset, i, true, request)] + Tiles;
      return newMemNode + HEADER;
    }

    /** The size arithmetic of `GeneralPurposeAlloc`. */
    method FindBucket(size: nat) returns (allocSize: nat, i: nat)
      requires size + HEADER <= BUCKET_MAX
      ensures i == BucketOf(size) && allocSize == BucketSize(i)
    {
      hide AlignSize, CeilPow2, BitScanForward, BucketSize;
      RequestFits(size);
      AlignedFits(size);
      allocSize := AlignSize(size + HEADER, GENERAL_PURPOSE_MIN);
      allocSize := AlignPowTwoCeil(allocSize, 64);
      i := ConvertAllocSizeToIndex(allocSize);
    }

    /** The live block that `ptr` was handed out for. */
    ghost predicate Holds(ptr: nat, k: nat)
      reads this
    {
      k < |Tiles| && Tiles[k].live && ptr == Tiles[k].addr + HEADER
    }

    /** `ptr` lies outside the used part of the buffer. */
    predicate Outside(ptr: nat)
      reads this
    {
      var block := (ptr + U64 - HEADER) % U64; block < Offset || block - Mem > Size
    }

    /** Null and outside pointers are ignored; the caller otherwise owes a live one, of tile `k`. */
    method GeneralPurposeFree(ptr: nat, ghost k: nat)
      requires Valid() && ptr < U64 && (ptr == 0 || Outside(ptr) || Holds(ptr, k))
      modifies this
      ensures Valid()
      ensures ptr == 0 || old(Outside(ptr)) ==> Now() == old(Now())
      ensures ptr != 0 && !old(Outside(ptr)) ==>
        k < |old(Tiles)| && Now() == Freed(old(Now()), k) && FreeOutcome(old(Now()), Now(), k)
      ensures old(Holds(ptr, k)) ==> ptr != 0 && !old(Outside(ptr))
    {
      hide FreeList, BucketSize, Sound, ConvertAllocSizeToIndex, Linked, Ascending, FreeOutcome;
      if Holds(ptr, k) {
        FreedOutcome(this, k);
        LiveTile(Nodes, Heads, Tiles, Offset, Mem + Size, k);
      }
      if ptr == 0 {
        return;
      }
      var block := (ptr + U64 - HEADER) % U64;
      if block < Offset || block - Mem > Size {
        return;
      }
      ghost var before, heads, from := Nodes, Heads, Offset;
      if block == Offset {
        Offset := Offset + Nodes[block].Size;
        DroppingLive(Nodes, Heads, Tiles, from, Mem + Size);
        Tiles := Tiles[1..];
      } else {
        var bucketIndex := ConvertAllocSizeToIndex(Nodes[block].Size);
        InsertMemNode(bucketIndex, block, k);
      }
    }

    /** Back to a fresh allocator. */
    method GeneralPurposeClearAll()
      requires Valid()
      modifies this
      ensures Valid() && Now() == Layout(Mem + Size, [])
    {
      Heads := seq(BUCKETS, _ => 0);
      Offset := Mem + Size;
      Tiles := [];
    }

    /** The region left and the blocks on the lists; with the live blocks, this is the whole buffer. */
    method GeneralPurposeGetFreeMemory() returns (total: nat)
      requires Valid()
      ensures total + LiveTotal(Tiles) == Size
    {
      hide FreeList, Sound, BucketSize, Times, ListsTotal, LiveTotal;
      total := Offset - Mem;
      ListsTotalNone(Tiles);
      for i := 0 to BUCKETS
        invariant total == Offset - Mem + ListsTotal(Tiles, i)
      {
        var n := Heads[i];
        ghost var list, j := FreeList(Tiles, i), 0;
        HeadOfList(Nodes, Heads, Tiles, Offset, Mem + Size, i);
        while n != 0
          invariant j <= |list| && n == (if j < |list| then list[j] else 0)
          invariant total == Offset - Mem + ListsTotal(Tiles, i) + Times(j, BucketSize(i))
          decreases |list| - j
        {
          ListStep(Nodes, Heads, Tiles, Offset, Mem + Size, i, j);
          total := total + Nodes[n].Size;
          n := Nodes[n].Next;
          j := j + 1;
        }
        ListStep(Nodes, Heads, Tiles, Offset, Mem + Size, i, j);
      }
      Conservation(Nodes, Heads, Tiles, Offset, Mem + Size);
    }
  }

  /** The lowest block is free and of bucket `i`, and joins the region. */
  function Merged(x: Layout, i: nat): Layout {
    if x.tiles != [] && !x.tiles[0].live && x.tiles[0].bucket == i
    then Layout(x.offset + BucketSize(i), x.tiles[1..]) else x
  }

  function Listed(x: Layout, k: nat): Layout
    requires k < |x.tiles|
  {
    x.(tiles := x.tiles[k := x.tiles[k].(live := false)])
  }

  lemma FreedIsListed(x: Layout, k: nat)
    requires 0 < k < |x.tiles| && x.tiles[k].live
    ensures var y := Merged(x, x.tiles[k].bucket);
            var k' := k - (|x.tiles| - |y.tiles|);
            k' < |y.tiles| && y.tiles[k'] == x.tiles[k] && Freed(x, k) == Listed(y, k')
    ensures Merged(x, x.tiles[k].bucket) == x ==> Freed(x, k) == Listed(x, k)
  {
    var y := Merged(x, x.tiles[k].bucket);
    if |y.tiles| < |x.tiles| {
      assert x.tiles[k := x.tiles[k].(live := false)][1..] == x.tiles[1..][k - 1 := x.tiles[k].(live := false)];
    }
  }

  lemma HeadOfList(nodes: map<nat, MemNode>, heads: seq<nat>, tiles: seq<Tile>, from: nat, end: nat, i: nat)
    requires Sound(nodes, heads, tiles, from, end) && from > 0 && i < BUCKETS
    ensures heads[i] == 0 <==> FreeList(tiles, i) == []
    ensures heads[i] != 0 ==> heads[i] == FreeList(tiles, i)[0]
    ensures FreeList(tiles, i) == [] ==> Merged(Layout(from, tiles), i) == Layout(from, tiles)
  {
    FreeListAscends(tiles, from, end, i);
  }

  lemma LowestOnlyHead(nodes: map<nat, MemNode>, heads: seq<nat>, tiles: seq<Tile>, from: nat, end: nat, i: nat, p: nat)
    requires Sound(nodes, heads, tiles, from, end) && from > 0
    requires p < |FreeList(tiles, i)| && FreeList(tiles, i)[p] == from
    ensures p == 0
  {
    LowestIsHead(tiles, from, end, i, p);
  }

  lemma HeadAbove(nodes: map<nat, MemNode>, heads: seq<nat>, tiles: seq<Tile>, from: nat, end: nat, i: nat)
    requires Sound(nodes, heads, tiles, from, end) && i < BUCKETS && heads[i] != from
    ensures Merged(Layout(from, tiles), i) == Layout(from, tiles)
  {
  }

  /** What the walk sees at the `j`-th block of the list, when the live block at tile `k` belongs at
      position `m >= j`. */
  lemma Walk(nodes: map<nat, MemNode>, heads: seq<nat>, tiles: seq<Tile>, from: nat, end: nat, k: nat, j: nat)
    returns (m: nat)
    requires Sound(nodes, heads, tiles, from, end) && from > 0 && k < |tiles| && tiles[k].live
    requires j < |FreeList(tiles, tiles[k].bucket)|
    requires j > 0 ==> FreeList(tiles, tiles[k].bucket)[j - 1] < tiles[k].addr
    ensures var list, node := FreeList(tiles, tiles[k].bucket), tiles[k].addr;
            && tiles[k].bucket < BUCKETS && Linked(nodes, heads[tiles[k].bucket], list)
            && Ascending(list) && node > 0 && node in nodes && node !in list
            && nodes[node].Next == nodes[node].Prev == 0
            && list[j] > 0 && list[j] in nodes && list[j] != node && j <= m <= |list|
            && FreeList(tiles[k := tiles[k].(live := false)], tiles[k].bucket) == With(list, m, node)
            && (list[j] < node ==> j < m && list[j] + nodes[list[j]].Size <= node)
            && (list[j] > node ==> j == m && node + nodes[node].Size <= list[j])
            && nodes[list[j]].Next == (if j + 1 < |list| then list[j + 1] else 0)
            && (j + 1 < |list| ==> list[j + 1] > 0)
            && (j + 1 == |list| && list[j] < node ==> m == |list|)
  {
    var i, node, list := tiles[k].bucket, tiles[k].addr, FreeList(tiles, tiles[k].bucket);
    m := FreeingTile(tiles, from, end, k);
    FreeListAscends(tiles, from, end, i);
    NotInFreeList(tiles, from, end, k, i);
    TilesInside(tiles, from, end, k);
    assert LinkAt(nodes, list, j);
    assert TileOk(nodes, tiles[k]);
    var q := FreeListMember(tiles, i, j);
    assert TileOk(nodes, tiles[q]);
  }

  /** Once the live block at tile `k` is linked in, everything is in order with that tile free. */
  lemma ListingKeeps(nodes: map<nat, MemNode>, nodes': map<nat, MemNode>, heads: seq<nat>, heads': seq<nat>,
                     tiles: seq<Tile>, from: nat, end: nat, k: nat)
    requires Sound(nodes, heads, tiles, from, end) && |heads'| == BUCKETS && k < |tiles| && tiles[k].live
    requires tiles[k].bucket < BUCKETS && heads' == heads[tiles[k].bucket := heads'[tiles[k].bucket]]
    requires nodes'.Keys == nodes.Keys && forall a :: a in nodes ==> nodes'[a].Size == nodes[a].Size
    requires forall a :: a in nodes && a !in FreeList(tiles, tiles[k].bucket) && a != tiles[k].addr ==>
      nodes'[a] == nodes[a]
    requires var i := tiles[k].bucket;
             Linked(nodes', heads'[i], FreeList(tiles[k := tiles[k].(live := false)], i))
    ensures Sound(nodes', heads', tiles[k := tiles[k].(live := false)], from, end)
  {
    var i := tiles[k].bucket;
    assert TileOk(nodes, tiles[k]);
    assert TileOk(nodes', tiles[k].(live := false));
    TilesRelabel(tiles, from, end, k, tiles[k].(live := false));
    var m := FreeingTile(tiles, from, end, k);
    FramedLists(nodes, nodes', heads, tiles, from, end, i, k);
    hide Linked, Tiled, FreeList, TileOk, With;
    var tiles' := tiles[k := tiles[k].(live := false)];
    forall q | 0 <= q < |tiles'| ensures TileOk(nodes', tiles'[q]) {
      assert TileOk(nodes, tiles[q]);
    }
    forall j | 0 <= j < BUCKETS ensures Linked(nodes', heads'[j], FreeList(tiles', j)) {
      assert j != i ==> FreeList(tiles', j) == FreeList(tiles, j);
    }
  }

  /** Changing links only in list `i` and in the header at tile `k`, which is in list `i` or live, leaves
      the other lists linked and the other tiles in order. */
  lemma FramedLists(nodes: map<nat, MemNode>, nodes': map<nat, MemNode>, heads: seq<nat>, tiles: seq<Tile>,
                    from: nat, end: nat, i: nat, k: nat)
    requires Tiled(tiles, from, end) && |heads| == BUCKETS && k < |tiles|
    requires tiles[k].live || tiles[k].bucket == i
    requires forall j :: 0 <= j < BUCKETS ==> Linked(nodes, heads[j], FreeList(tiles, j))
    requires nodes'.Keys == nodes.Keys && forall a :: a in nodes ==> nodes'[a].Size == nodes[a].Size
    requires forall a :: a in nodes && a !in FreeList(tiles, i) && a != tiles[k].addr ==> nodes'[a] == nodes[a]
    ensures forall j :: 0 <= j < BUCKETS && j != i ==> Linked(nodes', heads[j], FreeList(tiles, j))
    ensures forall q :: 0 <= q < |tiles| && q != k && TileOk(nodes, tiles[q]) ==> TileOk(nodes', tiles[q])
  {
    forall j | 0 <= j < BUCKETS && j != i ensures Linked(nodes', heads[j], FreeList(tiles, j)) {
      NotInFreeList(tiles, from, end, k, j);
      forall a | a in FreeList(tiles, j) ensures a in nodes' && (a in nodes ==> nodes'[a] == nodes[a]) {
        var p :| 0 <= p < |FreeList(tiles, j)| && FreeList(tiles, j)[p] == a;
        assert LinkAt(nodes, FreeList(tiles, j), p);
        FreeListsDisjoint(tiles, from, end, j, i, a);
      }
      LinkedFrame(nodes, nodes', heads[j], FreeList(tiles, j));
    }
    forall q | 0 <= q < |tiles| && q != k && TileOk(nodes, tiles[q]) ensures TileOk(nodes', tiles[q]) {
      if tiles[q].live {
        NotInFreeList(tiles, from, end, q, i);
      }
      TilesApart(tiles, from, end, if q < k then q else k, if q < k then k else q);
    }
  }

  /** A live block whose list is empty becomes the whole list. */
  lemma ListingAlone(nodes: map<nat, MemNode>, heads: seq<nat>, tiles: seq<Tile>, from: nat, end: nat, k: nat)
    requires Sound(nodes, heads, tiles, from, end) && from > 0 && k < |tiles| && tiles[k].live
    requires FreeList(tiles, tiles[k].bucket) == []
    ensures Linked(nodes, tiles[k].addr, FreeList(tiles[k := tiles[k].(live := false)], tiles[k].bucket))
  {
    var node := tiles[k].addr;
    var m := FreeingTile(tiles, from, end, k);
    assert TileOk(nodes, tiles[k]);
    assert LinkAt(nodes, [node], 0);
    assert With([], 0, node) == [node];
  }

  /** The head of a list that lies at the start of the tiles is the lowest tile. */
  lemma LowestTile(nodes: map<nat, MemNode>, heads: seq<nat>, tiles: seq<Tile>, from: nat, end: nat, i: nat)
    requires Sound(nodes, heads, tiles, from, end) && from > 0 && i < BUCKETS && heads[i] == from
    ensures tiles != [] && !tiles[0].live && tiles[0].bucket == i && tiles[0].addr == from
    ensures Linked(nodes, heads[i], FreeList(tiles, i)) && Ascending(FreeList(tiles, i))
    ensures FreeList(tiles, i) != [] && FreeList(tiles, i)[0] == from
    ensures from in nodes && nodes[from].Size == BucketSize(i) && from + BucketSize(i) <= end
  {
    FreeListAscends(tiles, from, end, i);
    LowestIsHead(tiles, from, end, i, 0);
    TilesInside(tiles, from, end, 0);
    assert TileOk(nodes, tiles[0]);
  }

  /** Once the lowest tile, the head of list `i`, is unlinked, everything is in order without it. */
  lemma MergingKeeps(nodes: map<nat, MemNode>, nodes': map<nat, MemNode>, heads: seq<nat>, heads': seq<nat>,
                     tiles: seq<Tile>, from: nat, end: nat, i: nat)
    requires Sound(nodes, heads, tiles, from, end) && |heads'| == BUCKETS && i < BUCKETS
    requires tiles != [] && !tiles[0].live && tiles[0].bucket == i && heads' == heads[i := heads'[i]]
    requires nodes'.Keys == nodes.Keys && forall a :: a in nodes ==> nodes'[a].Size == nodes[a].Size
    requires forall a :: a in nodes && a !in FreeList(tiles, i) ==> nodes'[a] == nodes[a]
    requires FreeList(tiles, i) != [] && Linked(nodes', heads'[i], Without(FreeList(tiles, i), 0))
    ensures Sound(nodes', heads', tiles[1..], from + BucketSize(i), end)
    ensures |FreeList(tiles[1..], i)| < |FreeList(tiles, i)|
  {
    FramedLists(nodes, nodes', heads, tiles, from, end, i, 0);
    TilesDrop(tiles, from, end);
    DroppingTile(tiles);
    assert Without(FreeList(tiles, i), 0) == FreeList(tiles, i)[1..];
    hide FreeList, Linked, Tiled, TileOk;
    forall q | 0 <= q < |tiles[1..]| ensures TileOk(nodes', tiles[1..][q]) {
      assert TileOk(nodes, tiles[q + 1]);
    }
  }

  // ---------- Steps of allocating ----------

  lemma AlignedFits(size: nat)
    requires size + HEADER <= BUCKET_MAX
    ensures AlignSize(size + HEADER, GENERAL_PURPOSE_MIN) <= Pow2(63) < Pow2(64)
    ensures AlignSize(size + HEADER, GENERAL_PURPOSE_MIN) < Pow2(64)
    ensures RoundedSize(size) == CeilPow2(AlignSize(size + HEADER, GENERAL_PURPOSE_MIN))
  {
    Pow2Constants();
    assert PowerOfTwo(GENERAL_PURPOSE_MIN);
    AlignSizeLeastMultiple(size + HEADER, GENERAL_PURPOSE_MIN);
  }

  lemma FirstFreeHeads(tiles: seq<Tile>, i: nat)
    ensures FirstFree(tiles, i) == |tiles| <==> FreeList(tiles, i) == []
    ensures FirstFree(tiles, i) < |tiles| ==> FreeList(tiles, i)[0] == tiles[FirstFree(tiles, i)].addr
  {
    var k := FirstFree(tiles, i);
    if k == |tiles| {
      FreeListNone(tiles, i);
    } else {
      TakingTile(tiles, k, tiles[k].(live := true));
    }
  }

  lemma ListIsLinked(nodes: map<nat, MemNode>, heads: seq<nat>, tiles: seq<Tile>, from: nat, end: nat, i: nat)
    requires Sound(nodes, heads, tiles, from, end) && from > 0 && i < BUCKETS
    ensures Linked(nodes, heads[i], FreeList(tiles, i)) && Ascending(FreeList(tiles, i))
  {
    FreeListAscends(tiles, from, end, i);
  }

  /** The block unlinked from the head of a list may be written to. */
  lemma Detached(nodes: map<nat, MemNode>, head: nat, list: seq<nat>)
    requires list != [] && Ascending(list) && Linked(nodes, head, Without(list, 0)) && list[0] in nodes
    ensures Linked(nodes[list[0] := nodes[list[0]].(Next := 0, Prev := 0)], head, Without(list, 0))
  {
    var rest := Without(list, 0);
    forall a | a in rest ensures a != list[0] && a in nodes {
      var p :| 0 <= p < |rest| && rest[p] == a;
      assert rest[p] == list[p + 1] && LinkAt(nodes, rest, p);
    }
    LinkedFrame(nodes, nodes[list[0] := nodes[list[0]].(Next := 0, Prev := 0)], head, rest);
  }

  lemma TakingKeeps(nodes: map<nat, MemNode>, nodes': map<nat, MemNode>, heads: seq<nat>, heads': seq<nat>,
                    tiles: seq<Tile>, from: nat, end: nat, k: nat, request: nat)
    requires Sound(nodes, heads, tiles, from, end) && |heads'| == BUCKETS && k < |tiles| && !tiles[k].live
    requires k == FirstFree(tiles, tiles[k].bucket) && request + HEADER <= BucketSize(tiles[k].bucket)
    requires tiles[k].bucket < BUCKETS && heads' == heads[tiles[k].bucket := heads'[tiles[k].bucket]]
    requires nodes'.Keys == nodes.Keys && forall a :: a in nodes ==> nodes'[a].Size == nodes[a].Size
    requires forall a :: a in nodes && a !in FreeList(tiles, tiles[k].bucket) ==> nodes'[a] == nodes[a]
    requires var list := FreeList(tiles, tiles[k].bucket);
             && list != [] && list[0] == tiles[k].addr && tiles[k].addr in nodes'
             && nodes'[list[0]].Next == nodes'[list[0]].Prev == 0
             && Linked(nodes', heads'[tiles[k].bucket], Without(list, 0))
    ensures Sound(nodes', heads', tiles[k := Tile(tiles[k].addr, tiles[k].bucket, true, request)], from, end)
  {
    var i, t := tiles[k].bucket, Tile(tiles[k].addr, tiles[k].bucket, true, request);
    assert TileOk(nodes, tiles[k]);
    assert TileOk(nodes', t);
    TilesRelabel(tiles, from, end, k, t);
    TakingTile(tiles, k, t);
    FramedLists(nodes, nodes', heads, tiles, from, end, i, k);
    assert Without(FreeList(tiles, i), 0) == FreeList(tiles, i)[1..];
    hide Linked, Tiled, FreeList, TileOk;
    var tiles' := tiles[k := t];
    forall q | 0 <= q < |tiles'| ensures TileOk(nodes', tiles'[q]) {
      assert TileOk(nodes, tiles[q]);
    }
    forall j | 0 <= j < BUCKETS ensures Linked(nodes', heads'[j], FreeList(tiles', j)) {
      assert j != i ==> FreeList(tiles', j) == FreeList(tiles, j);
    }
  }

  lemma CarvingKeeps(nodes: map<nat, MemNode>, heads: seq<nat>, tiles: seq<Tile>, from: nat, end: nat,
                     i: nat, request: nat)
    requires from > 0 && Sound(nodes, heads, tiles, from + BucketSize(i), end)
    requires 1 <= i < BUCKETS && request + HEADER <= BucketSize(i)
    ensures Sound(nodes[from := MemNode(BucketSize(i), 0, 0)], heads, [Tile(from, i, true, request)] + tiles, from, end)
  {
    var nodes', t := nodes[from := MemNode(BucketSize(i), 0, 0)], Tile(from, i, true, request);
    var tiles' := [t] + tiles;
    TilesPrepend(tiles, from + BucketSize(i), end, t);
    assert tiles'[1..] == tiles;
    forall j | 0 <= j < BUCKETS ensures Linked(nodes', heads[j], FreeList(tiles', j)) {
      assert FreeList(tiles', j) == [] + FreeList(tiles, j) == FreeList(tiles, j);
      BelowTheTiles(nodes, nodes', heads[j], tiles, from, from + BucketSize(i), end, j);
    }
    hide Linked, Tiled, FreeList;
    forall q | 0 <= q < |tiles'| ensures TileOk(nodes', tiles'[q]) {
      if q > 0 {
        assert TileOk(nodes, tiles[q - 1]);
        TilesInside(tiles, from + BucketSize(i), end, q - 1);
      }
    }
  }

  /** Writing a header below the tiles leaves a list linked. */
  lemma BelowTheTiles(nodes: map<nat, MemNode>, nodes': map<nat, MemNode>, head: nat, tiles: seq<Tile>,
                      at: nat, from: nat, end: nat, j: nat)
    requires Tiled(tiles, from, end) && at < from && Linked(nodes, head, FreeList(tiles, j))
    requires at in nodes' && nodes' == nodes[at := nodes'[at]]
    ensures Linked(nodes', head, FreeList(tiles, j))
  {
    FreeListAscends(tiles, from, end, j);
    var list := FreeList(tiles, j);
    forall a | a in list ensures a in nodes' && (a in nodes ==> nodes'[a] == nodes[a]) {
      var p :| 0 <= p < |list| && list[p] == a;
      assert LinkAt(nodes, list, p);
    }
    LinkedFrame(nodes, nodes', head, list);
  }

  // ---------- Steps of freeing ----------

  lemma LiveTile(nodes: map<nat, MemNode>, heads: seq<nat>, tiles: seq<Tile>, from: nat, end: nat, k: nat)
    requires Sound(nodes, heads, tiles, from, end) && k < |tiles| && tiles[k].live
    ensures var t := tiles[k];
            && from <= t.addr && t.addr + BucketSize(t.bucket) <= end && 1 <= t.bucket < BUCKETS
            && HEADER < BucketSize(t.bucket) && t.addr in nodes && nodes[t.addr].Size == BucketSize(t.bucket)
            && GENERAL_PURPOSE_MIN <= BucketSize(t.bucket) && ConvertAllocSizeToIndex(BucketSize(t.bucket)) == t.bucket
            && (t.addr == from <==> k == 0)
  {
    assert TileOk(nodes, tiles[k]);
    TilesInside(tiles, from, end, k);
    if k > 0 {
      TilesApart(tiles, from, end, 0, k);
    }
    PowerIndex(tiles[k].bucket + 8);
  }

  lemma DroppingLive(nodes: map<nat, MemNode>, heads: seq<nat>, tiles: seq<Tile>, from: nat, end: nat)
    requires Sound(nodes, heads, tiles, from, end) && tiles != [] && tiles[0].live
    ensures Sound(nodes, heads, tiles[1..], from + BucketSize(tiles[0].bucket), end)
    ensures from + BucketSize(tiles[0].bucket) <= end
  {
    TilesDrop(tiles, from, end);
    TilesInside(tiles, from, end, 0);
    forall j | 0 <= j < BUCKETS ensures Linked(nodes, heads[j], FreeList(tiles[1..], j)) {
      assert FreeList(tiles, j) == FreeList(tiles[1..], j);
    }
    forall q | 0 <= q < |tiles[1..]| ensures TileOk(nodes, tiles[1..][q]) {
      assert TileOk(nodes, tiles[q + 1]);
    }
  }

  // ---------- Conservation ----------

  ghost function Times(n: nat, size: nat): nat {
    if n == 0 then 0 else Times(n - 1, size) + size
  }

  ghost function LiveTotal(tiles: seq<Tile>): nat {
    if tiles == [] then 0 else (if tiles[0].live then BucketSize(tiles[0].bucket) else 0) + LiveTotal(tiles[1..])
  }

  /** The bytes on the first `n` free lists. */
  ghost function ListsTotal(tiles: seq<Tile>, n: nat): nat {
    if n == 0 then 0 else ListsTotal(tiles, n - 1) + Times(|FreeList(tiles, n - 1)|, BucketSize(n - 1))
  }

  lemma {:induction false} ListsTotalFirst(tiles: seq<Tile>, n: nat)
    requires tiles != []
    ensures ListsTotal(tiles, n) == ListsTotal(tiles[1..], n)
      + if !tiles[0].live && tiles[0].bucket < n then BucketSize(tiles[0].bucket) else 0
  {
    if n > 0 {
      ListsTotalFirst(tiles, n - 1);
    }
  }

  lemma {:induction false} TotalsAgree(tiles: seq<Tile>, from: nat, end: nat)
    requires Tiled(tiles, from, end) && forall k :: 0 <= k < |tiles| ==> tiles[k].bucket < BUCKETS
    ensures from + LiveTotal(tiles) + ListsTotal(tiles, BUCKETS) == end
    decreases |tiles|
  {
    if tiles == [] {
      NoLists(BUCKETS);
    } else {
      TilesDrop(tiles, from, end);
      TotalsAgree(tiles[1..], from + BucketSize(tiles[0].bucket), end);
      ListsTotalFirst(tiles, BUCKETS);
    }
  }

  lemma ListsTotalNone(tiles: seq<Tile>)
    ensures ListsTotal(tiles, 0) == 0 && forall size: nat :: Times(0, size) == 0
  {
  }

  lemma {:induction false} NoLists(n: nat)
    ensures ListsTotal([], n) == 0
  {
    if n > 0 {
      NoLists(n - 1);
    }
  }

  lemma Conservation(nodes: map<nat, MemNode>, heads: seq<nat>, tiles: seq<Tile>, from: nat, end: nat)
    requires Sound(nodes, heads, tiles, from, end)
    ensures from + LiveTotal(tiles) + ListsTotal(tiles, BUCKETS) == end
  {
    forall k | 0 <= k < |tiles| ensures tiles[k].bucket < BUCKETS {
      assert TileOk(nodes, tiles[k]);
    }
    TotalsAgree(tiles, from, end);
  }

  /** What a walk along list `i` sees at its `j`-th block. */
  lemma ListStep(nodes: map<nat, MemNode>, heads: seq<nat>, tiles: seq<Tile>, from: nat, end: nat, i: nat, j: nat)
    requires Sound(nodes, heads, tiles, from, end) && from > 0 && i < BUCKETS && j <= |FreeList(tiles, i)|
    ensures var list := FreeList(tiles, i);
            if j < |list| then
              && list[j] > 0 && list[j] in nodes && nodes[list[j]].Size == BucketSize(i)
              && nodes[list[j]].Next == (if j + 1 < |list| then list[j + 1] else 0)
              && Times(j + 1, BucketSize(i)) == Times(j, BucketSize(i)) + BucketSize(i)
            else ListsTotal(tiles, i + 1) == ListsTotal(tiles, i) + Times(j, BucketSize(i))
  {
    var list := FreeList(tiles, i);
    if j < |list| {
      FreeListAscends(tiles, from, end, i);
      assert LinkAt(nodes, list, j);
      var q := FreeListMember(tiles, i, j);
      assert TileOk(nodes, tiles[q]);
    }
  }

  // ---------- What a call answers ----------

  ghost function LiveTiles(tiles: seq<Tile>): set<Tile> {
    set t | t in tiles && t.live
  }

  ghost function FreeTiles(tiles: seq<Tile>): set<Tile> {
    set t | t in tiles && !t.live
  }

  /** Null exactly when no block of the bucket is free and the region is too small, and then nothing
      changes. Otherwise exactly one block becomes live: the lowest free one of the bucket, or if there
      is none a new one below the region. */
  ghost predicate AllocOutcome(x: Layout, y: Layout, mem: nat, i: nat, request: nat, ptr: nat) {
    var free := set t | t in FreeTiles(x.tiles) && t.bucket == i;
    if free == {} && x.offset - mem < BucketSize(i) then ptr == 0 && y == x
    else
      && ptr >= HEADER
      && (forall t :: t in LiveTiles(x.tiles) ==> t.addr != ptr - HEADER)
      && LiveTiles(y.tiles) == LiveTiles(x.tiles) + {Tile(ptr - HEADER, i, true, request)}
      && if free == {} then
           y.offset == ptr - HEADER == x.offset - BucketSize(i) && FreeTiles(y.tiles) == FreeTiles(x.tiles)
         else
           y.offset == x.offset && exists t ::
             && t in free && t.addr == ptr - HEADER && (forall u :: u in free ==> t.addr <= u.addr)
             && FreeTiles(y.tiles) == FreeTiles(x.tiles) - {t}
  }

  lemma AllocatedOutcome(a: GeneralPurposeAllocator, i: nat, request: nat)
    requires a.Valid()
    ensures var x := a.Now();
            AllocOutcome(x, Allocated(x, a.Mem, i, request), a.Mem, i, request, AllocatedAt(x, a.Mem, i))
  {
    hide AllocOutcome, Allocated, AllocatedAt;
    if FirstFree(a.Tiles, i) < |a.Tiles| {
      TakenOutcome(a, i, request);
    } else {
      CarvedOutcome(a, i, request);
    }
  }

  lemma TakenOutcome(a: GeneralPurposeAllocator, i: nat, request: nat)
    requires a.Valid() && FirstFree(a.Tiles, i) < |a.Tiles|
    ensures var x := a.Now();
            AllocOutcome(x, Allocated(x, a.Mem, i, request), a.Mem, i, request, AllocatedAt(x, a.Mem, i))
  {
    var x, k := a.Now(), FirstFree(a.Tiles, i);
    var free := set t | t in FreeTiles(x.tiles) && t.bucket == i;
    hide Sound, FreeList, BucketSize;
    var t, mine := x.tiles[k], Tile(x.tiles[k].addr, i, true, request);
    assert t in free;
    TakenTile(a, k, mine);
    forall u | u in free ensures t.addr <= u.addr {
      var j :| 0 <= j < |x.tiles| && x.tiles[j] == u;
      if j != k {
        AddressesAscend(a, k, j);
      }
    }
  }

  lemma CarvedOutcome(a: GeneralPurposeAllocator, i: nat, request: nat)
    requires a.Valid() && FirstFree(a.Tiles, i) == |a.Tiles|
    ensures var x := a.Now();
            AllocOutcome(x, Allocated(x, a.Mem, i, request), a.Mem, i, request, AllocatedAt(x, a.Mem, i))
  {
    var x := a.Now();
    var free := set t | t in FreeTiles(x.tiles) && t.bucket == i;
    hide Sound, FreeList, BucketSize;
    assert free == {};
    if x.offset >= a.Mem + BucketSize(i) {
      var mine := Tile(x.offset - BucketSize(i), i, true, request);
      forall t | t in LiveTiles(x.tiles) ensures t.addr != mine.addr {
        var j :| 0 <= j < |x.tiles| && x.tiles[j] == t;
        AddressesInside(a, j);
      }
    }
  }

  lemma AddressesAscend(a: GeneralPurposeAllocator, j: nat, k: nat)
    requires a.Valid() && j < k < |a.Tiles|
    ensures a.Tiles[j].addr < a.Tiles[k].addr
  {
    TilesApart(a.Tiles, a.Offset, a.Mem + a.Size, j, k);
  }

  lemma AddressesInside(a: GeneralPurposeAllocator, k: nat)
    requires a.Valid() && k < |a.Tiles|
    ensures a.Offset <= a.Tiles[k].addr && (a.Tiles[k].addr == a.Offset <==> k == 0)
  {
    TilesInside(a.Tiles, a.Offset, a.Mem + a.Size, k);
    if k > 0 {
      AddressesAscend(a, 0, k);
    }
  }

  /** Relabelling one tile, at the same address, exchanges it for the new one. */
  lemma TakenTile(a: GeneralPurposeAllocator, k: nat, t: Tile)
    requires a.Valid() && k < |a.Tiles| && t.addr == a.Tiles[k].addr
    ensures var tiles := a.Tiles[k := t];
            && LiveTiles(tiles) == LiveTiles(a.Tiles) - {a.Tiles[k]} + (if t.live then {t} else {})
            && FreeTiles(tiles) == FreeTiles(a.Tiles) - {a.Tiles[k]} + (if t.live then {} else {t})
    ensures forall u :: u in a.Tiles && u != a.Tiles[k] ==> u.addr != t.addr
  {
    var tiles := a.Tiles[k := t];
    hide Sound;
    forall j | 0 <= j < |a.Tiles| && j != k ensures a.Tiles[j].addr != t.addr && tiles[j] == a.Tiles[j] {
      AddressesAscend(a, if j < k then j else k, if j < k then k else j);
    }
    forall u | u in a.Tiles && u != a.Tiles[k] ensures u in tiles && u.addr != t.addr {
      var j :| 0 <= j < |a.Tiles| && a.Tiles[j] == u;
      assert tiles[j] == u;
    }
    assert tiles[k] == t;
  }

  /** The block freed is live no longer, and no other block's life changes. At the start of the used part
      it joins the region. Otherwise it is free; if the lowest block is free and of the same bucket, that
      one joins the region. */
  ghost predicate FreeOutcome(x: Layout, y: Layout, k: nat)
    requires k < |x.tiles|
  {
    var t := x.tiles[k];
    && LiveTiles(y.tiles) == LiveTiles(x.tiles) - {t}
    && if t.addr == x.offset then
         y.offset == x.offset + BucketSize(t.bucket) && FreeTiles(y.tiles) == FreeTiles(x.tiles)
       else
         var joins := set u | u in FreeTiles(x.tiles) && u.addr == x.offset && u.bucket == t.bucket;
         && y.offset == x.offset + (if joins == {} then 0 else BucketSize(t.bucket))
         && FreeTiles(y.tiles) == FreeTiles(x.tiles) - joins + {t.(live := false)}
  }

  lemma FreedOutcome(a: GeneralPurposeAllocator, k: nat)
    requires a.Valid() && k < |a.Tiles| && a.Tiles[k].live
    ensures FreeOutcome(a.Now(), Freed(a.Now(), k), k)
  {
    var x, t := a.Now(), a.Tiles[k];
    var freed := t.(live := false);
    hide Sound, BucketSize;
    AddressesInside(a, k);
    FirstAddress(a);
    DropFirst(x.tiles);
    if k > 0 {
      TakenTile(a, k, freed);
      DropFirst(x.tiles[k := freed]);
      var lowest := x.tiles[0];
      var joins := set u | u in FreeTiles(x.tiles) && u.addr == x.offset && u.bucket == t.bucket;
      assert joins == if !lowest.live && lowest.bucket == t.bucket then {lowest} else {};
    }
  }

  lemma FirstAddress(a: GeneralPurposeAllocator)
    requires a.Valid() && a.Tiles != []
    ensures forall u :: u in a.Tiles ==> (u.addr == a.Offset <==> u == a.Tiles[0])
    ensures forall j :: 0 < j < |a.Tiles| ==> a.Tiles[j].addr != a.Tiles[0].addr
  {
    forall j: nat | j < |a.Tiles| ensures a.Tiles[j].addr == a.Offset <==> j == 0 {
      AddressesInside(a, j);
    }
  }

  lemma DropFirst(tiles: seq<Tile>)
    requires tiles != [] && forall j :: 0 < j < |tiles| ==> tiles[j].addr != tiles[0].addr
    ensures LiveTiles(tiles[1..]) == LiveTiles(tiles) - {tiles[0]}
    ensures FreeTiles(tiles[1..]) == FreeTiles(tiles) - {tiles[0]}
  {
    forall t ensures t in tiles[1..] <==> t in tiles && t != tiles[0] {
      if t in tiles && t != tiles[0] {
        var j :| 0 <= j < |tiles| && tiles[j] == t;
        assert tiles[1..][j - 1] == t;
      }
    }
  }

  // ---------- Consequences for callers ----------

  /** Live blocks lie inside the buffer, hold what was asked for, and do not overlap. */
  lemma LiveBlocksApart(a: GeneralPurposeAllocator, j: nat, k: nat)
    requires a.Valid() && j < k < |a.Tiles| && a.Tiles[j].live && a.Tiles[k].live
    ensures var t, u := a.Tiles[j], a.Tiles[k];
            && a.Mem <= t.addr && t.addr + HEADER + t.request <= t.addr + BucketSize(t.bucket) <= u.addr
            && u.addr + HEADER + u.request <= a.Mem + a.Size
  {
    assert TileOk(a.Nodes, a.Tiles[j]) && TileOk(a.Nodes, a.Tiles[k]);
    TilesInside(a.Tiles, a.Offset, a.Mem + a.Size, j);
    TilesInside(a.Tiles, a.Offset, a.Mem + a.Size, k);
    TilesApart(a.Tiles, a.Offset, a.Mem + a.Size, j, k);
  }

  /** A pointer handed out is null, or that of a block that was not live before and is the only change. */
  lemma HandsOutFreshBlock(a: GeneralPurposeAllocator, x: Layout, i: nat, request: nat)
    requires a.Valid() && x == a.Now() && 1 <= i < BUCKETS && request + HEADER <= BucketSize(i)
    requires AllocatedAt(x, a.Mem, i) != 0
    ensures var y, ptr := Allocated(x, a.Mem, i, request), AllocatedAt(x, a.Mem, i);
            && (exists k :: 0 <= k < |y.tiles| && y.tiles[k] == Tile(ptr - HEADER, i, true, request))
            && (forall k :: 0 <= k < |x.tiles| && x.tiles[k].live ==>
                  x.tiles[k].addr + HEADER != ptr && x.tiles[k] in y.tiles)
            && (forall t :: t in y.tiles && t.live ==> t in x.tiles || t == Tile(ptr - HEADER, i, true, request))
  {
    var y, k := Allocated(x, a.Mem, i, request), FirstFree(x.tiles, i);
    if k < |x.tiles| {
      assert y.tiles[k] == Tile(x.tiles[k].addr, i, true, request);
      forall j | 0 <= j < |x.tiles| && x.tiles[j].live
        ensures x.tiles[j].addr != x.tiles[k].addr && x.tiles[j] in y.tiles
      {
        assert y.tiles[j] == x.tiles[j];
        TilesApart(x.tiles, x.offset, a.Mem + a.Size, if j < k then j else k, if j < k then k else j);
      }
    } else {
      assert y.tiles[0] == Tile(x.offset - BucketSize(i), i, true, request);
      forall j | 0 <= j < |x.tiles| && x.tiles[j].live
        ensures x.tiles[j].addr != x.offset - BucketSize(i) && x.tiles[j] in y.tiles
      {
        assert y.tiles[j + 1] == x.tiles[j];
        TilesInside(x.tiles, x.offset, a.Mem + a.Size, j);
      }
    }
  }

  /** Blocks taken from a fresh allocator and freed in reverse order leave it fresh. */
  method LastInFirstOut(a: GeneralPurposeAllocator, sizes: seq<nat>)
    requires a.Valid() && a.Now() == Layout(a.Mem + a.Size, [])
    requires forall k :: 0 <= k < |sizes| ==> 0 < sizes[k] && sizes[k] + HEADER <= BUCKET_MAX
    modifies a
    ensures a.Valid() && a.Now() == Layout(a.Mem + a.Size, [])
  {
    hide Sound, BucketSize, BucketOf;
    var ptrs: seq<nat> := [];
    for n := 0 to |sizes|
      invariant a.Valid() && AllLive(a.Tiles, ptrs)
    {
      NoneFree(a.Tiles, ptrs);
      var ptr := a.GeneralPurposeAlloc(sizes[n]);
      if ptr != 0 {
        ptrs := [ptr] + ptrs;
      }
    }
    while ptrs != []
      invariant a.Valid() && AllLive(a.Tiles, ptrs)
      decreases |ptrs|
    {
      NewestPointer(a, ptrs);
      a.GeneralPurposeFree(ptrs[0], 0);
      ptrs := ptrs[1..];
    }
    EmptyTiles(a);
  }

  /** Every tile is live and was handed out under the corresponding pointer, newest first. */
  ghost predicate AllLive(tiles: seq<Tile>, ptrs: seq<nat>) {
    |tiles| == |ptrs| && forall k :: 0 <= k < |tiles| ==> tiles[k].live && ptrs[k] == tiles[k].addr + HEADER
  }

  lemma NewestPointer(a: GeneralPurposeAllocator, ptrs: seq<nat>)
    requires a.Valid() && AllLive(a.Tiles, ptrs) && ptrs != []
    ensures a.Holds(ptrs[0], 0) && ptrs[0] < U64
  {
    LiveTile(a.Nodes, a.Heads, a.Tiles, a.Offset, a.Mem + a.Size, 0);
  }

  lemma NoneFree(tiles: seq<Tile>, ptrs: seq<nat>)
    requires AllLive(tiles, ptrs)
    ensures forall i :: FirstFree(tiles, i) == |tiles|
  {
  }

  lemma EmptyTiles(a: GeneralPurposeAllocator)
    requires a.Valid() && a.Tiles == []
    ensures a.Offset == a.Mem + a.Size
  {
  }
}
