/** The kernel heap as a row of blocks, and how headers in memory spell it. */
module HeapBlocks {
  import opened Bytes

  /** A block at `addr`: an 8-byte header and `size` bytes of payload. */
  datatype Block = Block(addr: nat, size: nat, free: bool)

  const HEADER := 8

  function End(b: Block): nat {
    b.addr + HEADER + b.size
  }

  /** The blocks fill [lo, hi) without gap or overlap. */
  ghost predicate Tiled(bs: seq<Block>, lo: nat, hi: nat) {
    && 0 < |bs| && bs[0].addr == lo && End(bs[|bs| - 1]) == hi
    && forall i :: 0 <= i < |bs| - 1 ==> End(bs[i]) == bs[i + 1].addr
  }

  ghost predicate NoFreeNeighbours(bs: seq<Block>) {
    forall i :: 0 <= i < |bs| - 1 ==> !(bs[i].free && bs[i + 1].free)
  }

  /** What every run of the allocator keeps: the list head is the first block, and free blocks are fully coalesced. */
  ghost predicate Coalesced(bs: seq<Block>, lo: nat, hi: nat) {
    Tiled(bs, lo, hi) && bs[0].free && NoFreeNeighbours(bs)
  }

  /** The address of the first free block from index i on, or 0. */
  ghost function NextFree(bs: seq<Block>, i: nat): nat
    decreases |bs| - i
  {
    if i >= |bs| then 0 else if bs[i].free then bs[i].addr else NextFree(bs, i + 1)
  }

  /** The index of that block, or the number of blocks. */
  ghost function NextFreeIndex(bs: seq<Block>, i: nat): (k: nat)
    requires i <= |bs|
    ensures i <= k <= |bs|
    ensures k < |bs| ==> bs[k].free && NextFree(bs, i) == bs[k].addr
    ensures k == |bs| ==> NextFree(bs, i) == 0
    ensures forall q :: i <= q < k ==> !bs[q].free
    decreases |bs| - i
  {
    if i == |bs| || bs[i].free then i else NextFreeIndex(bs, i + 1)
  }

  lemma {:induction false} TiledInOrder(bs: seq<Block>, lo: nat, hi: nat, i: nat, j: nat)
    requires Tiled(bs, lo, hi) && i < j < |bs|
    ensures lo <= bs[i].addr && End(bs[i]) <= bs[j].addr && End(bs[j]) <= hi
    decreases j
  {
    TiledInside(bs, lo, hi, i);
    TiledInside(bs, lo, hi, j);
    if i + 1 < j {
      TiledInOrder(bs, lo, hi, i, j - 1);
      assert End(bs[j - 1]) == bs[j].addr;
    }
  }

  lemma TiledInside(bs: seq<Block>, lo: nat, hi: nat, i: nat)
    requires Tiled(bs, lo, hi) && i < |bs|
    ensures lo <= bs[i].addr && End(bs[i]) <= hi
  {
    TiledFrom(bs, lo, hi, i);
    TiledTo(bs, lo, hi, i);
  }

  lemma {:induction false} TiledFrom(bs: seq<Block>, lo: nat, hi: nat, i: nat)
    requires Tiled(bs, lo, hi) && i < |bs|
    ensures lo <= bs[i].addr
  {
    if i > 0 {
      TiledFrom(bs, lo, hi, i - 1);
      assert End(bs[i - 1]) == bs[i].addr;
    }
  }

  lemma {:induction false} TiledTo(bs: seq<Block>, lo: nat, hi: nat, i: nat)
    requires Tiled(bs, lo, hi) && i < |bs|
    ensures End(bs[i]) <= hi
    decreases |bs| - i
  {
    if i + 1 < |bs| {
      TiledTo(bs, lo, hi, i + 1);
      assert End(bs[i]) == bs[i + 1].addr;
    }
  }

  // ---- Allocation ----

  /** Block i gives up its tail to a live block of `n` bytes. */
  ghost function Carved(bs: seq<Block>, i: nat, n: nat): seq<Block>
    requires i < |bs| && n + HEADER <= bs[i].size
  {
    var rest := bs[i].size - n - HEADER;
    bs[..i] + [Block(bs[i].addr, rest, true), Block(bs[i].addr + HEADER + rest, n, false)] + bs[i + 1..]
  }

  /** First fit: the first free block of at least `room` bytes, or the number of blocks. */
  ghost function FirstFit(bs: seq<Block>, room: nat, from: nat): (i: nat)
    requires from <= |bs|
    ensures from <= i <= |bs| && (i < |bs| ==> bs[i].free && room <= bs[i].size)
    ensures forall q :: from <= q < i ==> !(bs[q].free && room <= bs[q].size)
    decreases |bs| - from
  {
    if from == |bs| || (bs[from].free && room <= bs[from].size) then from else FirstFit(bs, room, from + 1)
  }

  /** The room k_malloc looks for: its 32-bit sum of size and header wraps. */
  function RoomFor(n: u32): u32 {
    (n + HEADER) % 0x1_0000_0000
  }

  /** What k_malloc makes of block `b`. */
  function CarveAsCoded(b: Block, n: u32): (r: (Block, Block))
    requires RoomFor(n) <= b.size
  {
    var rest := b.size - RoomFor(n);
    (Block(b.addr, rest, true), Block(b.addr + rest + HEADER, n, false))
  }

  /** The two halves tile the block exactly when that sum does not wrap; a request that wraps runs past its end. */
  lemma CarvingFitsExactlyWithoutWrap(b: Block, n: u32)
    requires RoomFor(n) <= b.size
    ensures n + HEADER < 0x1_0000_0000 <==> End(CarveAsCoded(b, n).1) == End(b)
    ensures n + HEADER >= 0x1_0000_0000 ==> End(CarveAsCoded(b, n).1) > End(b)
    ensures n + HEADER < 0x1_0000_0000 ==> [CarveAsCoded(b, n).0, CarveAsCoded(b, n).1] == Carved([b], 0, n)
  {
  }

  lemma CodedCarvingIsExact(b: Block, n: u32)
    requires n + HEADER < 0x1_0000_0000 && RoomFor(n) <= b.size
    ensures n + HEADER <= b.size
    ensures CarveAsCoded(b, n) == (Block(b.addr, b.size - n - HEADER, true), Block(End(b) - n - HEADER, n, false))
  {
  }

  // ---- Release ----

  /** Blocks i and i + 1 become one free block. */
  ghost function Merged(bs: seq<Block>, i: nat): seq<Block>
    requires i + 1 < |bs|
  {
    bs[..i] + [Block(bs[i].addr, bs[i].size + HEADER + bs[i + 1].size, true)] + bs[i + 2..]
  }

  ghost function Unlived(bs: seq<Block>, j: nat): seq<Block>
    requires j < |bs|
  {
    bs[j := bs[j].(free := true)]
  }

  /** Where the freed block is once it has been merged to the left. */
  ghost function LeftEnd(bs: seq<Block>, j: nat): nat
    requires j < |bs|
  {
    if j > 0 && bs[j - 1].free then j - 1 else j
  }

  ghost function MergedLeft(bs: seq<Block>, j: nat): (r: seq<Block>)
    requires j < |bs|
    ensures LeftEnd(bs, j) < |r|
  {
    if j > 0 && bs[j - 1].free then Merged(Unlived(bs, j), j - 1) else Unlived(bs, j)
  }

  /** Block j freed, and coalesced with whichever neighbours are free. */
  ghost function Released(bs: seq<Block>, j: nat): seq<Block>
    requires j < |bs|
  {
    var left, i := MergedLeft(bs, j), LeftEnd(bs, j);
    if i + 1 < |left| && left[i + 1].free then Merged(left, i) else left
  }

  /** The live blocks, which are what callers hold pointers to. */
  ghost function LiveBlocks(bs: seq<Block>): set<Block> {
    set i | 0 <= i < |bs| && !bs[i].free :: bs[i]
  }

  lemma CarvedKeepsCoalesced(bs: seq<Block>, lo: nat, hi: nat, i: nat, n: nat)
    requires Coalesced(bs, lo, hi) && i < |bs| && bs[i].free && n + HEADER <= bs[i].size
    ensures Coalesced(Carved(bs, i, n), lo, hi)
  {
    var cs := Carved(bs, i, n);
    forall k | 0 <= k < |cs| - 1 ensures End(cs[k]) == cs[k + 1].addr && !(cs[k].free && cs[k + 1].free) {
      if k < i {
        assert End(bs[k]) == bs[k + 1].addr;
      } else if k > i {
        assert cs[k + 1] == bs[k];
        if k > i + 1 {
          assert cs[k] == bs[k - 1] && End(bs[k - 1]) == bs[k].addr;
        }
      }
    }
  }

  lemma MergedTiles(bs: seq<Block>, lo: nat, hi: nat, i: nat)
    requires Tiled(bs, lo, hi) && i + 1 < |bs|
    ensures Tiled(Merged(bs, i), lo, hi)
  {
    var cs := Merged(bs, i);
    assert End(bs[i]) == bs[i + 1].addr;
    forall k | 0 <= k < |cs| - 1 ensures End(cs[k]) == cs[k + 1].addr {
      if k < i {
        assert End(bs[k]) == bs[k + 1].addr;
      } else {
        assert cs[k + 1] == bs[k + 2] && End(bs[k + 1]) == bs[k + 2].addr;
        if k > i {
          assert cs[k] == bs[k + 1];
        }
      }
    }
    if i + 2 < |bs| {
      assert cs[|cs| - 1] == bs[|bs| - 1];
    }
  }

  lemma UnlivedTiles(bs: seq<Block>, lo: nat, hi: nat, j: nat)
    requires Tiled(bs, lo, hi) && j < |bs|
    ensures Tiled(Unlived(bs, j), lo, hi)
  {
    var open := Unlived(bs, j);
    forall k | 0 <= k < |open| - 1 ensures End(open[k]) == open[k + 1].addr {
      assert End(bs[k]) == bs[k + 1].addr;
    }
  }

  lemma ReleasedKeepsCoalesced(bs: seq<Block>, lo: nat, hi: nat, j: nat)
    requires Coalesced(bs, lo, hi) && 0 < j < |bs| && !bs[j].free
    ensures Coalesced(Released(bs, j), lo, hi)
  {
    var open, left, i := Unlived(bs, j), MergedLeft(bs, j), LeftEnd(bs, j);
    UnlivedTiles(bs, lo, hi, j);
    if i < j {
      MergedTiles(open, lo, hi, i);
    }
    if i + 1 < |left| && left[i + 1].free {
      MergedTiles(left, lo, hi, i);
    }
    ReleasedSeparates(bs, j);
  }

  /** Free neighbours occur only between positions `first` and `beyond`, if at all. */
  ghost predicate FreePairsWithin(bs: seq<Block>, first: nat, beyond: nat) {
    forall k :: 0 <= k < |bs| - 1 && !(first <= k < beyond) ==> !(bs[k].free && bs[k + 1].free)
  }

  lemma MergedSeparates(bs: seq<Block>, i: nat, beyond: nat)
    requires i + 1 < |bs| && bs[i].free && bs[i + 1].free && i < beyond
    requires FreePairsWithin(bs, i, beyond)
    ensures FreePairsWithin(Merged(bs, i), i, beyond - 1)
  {
    var cs := Merged(bs, i);
    forall k | 0 <= k < |cs| - 1 && !(i <= k < beyond - 1) ensures !(cs[k].free && cs[k + 1].free) {
      if k < i {
        assert !(bs[k].free && bs[k + 1].free);
      } else {
        assert cs[k + 1] == bs[k + 2];
        assert !(bs[k + 1].free && bs[k + 2].free);
        assert k > i ==> cs[k] == bs[k + 1];
      }
    }
  }

  lemma ReleasedSeparates(bs: seq<Block>, j: nat)
    requires 0 < j < |bs| && bs[0].free && NoFreeNeighbours(bs) && !bs[j].free
    ensures Released(bs, j) != [] && Released(bs, j)[0].free && NoFreeNeighbours(Released(bs, j))
  {
    var open, left, i := Unlived(bs, j), MergedLeft(bs, j), LeftEnd(bs, j);
    assert FreePairsWithin(open, i, j + 1) by {
      forall k | 0 <= k < |open| - 1 && !(i <= k < j + 1) ensures !(open[k].free && open[k + 1].free) {
        assert !(bs[k].free && bs[k + 1].free);
      }
    }
    if i < j {
      MergedSeparates(open, i, j + 1);
    }
    assert FreePairsWithin(left, i, i + 1);
    assert left[0].free && left[i].free;
    if i + 1 < |left| && left[i + 1].free {
      MergedSeparates(left, i, i + 1);
    }
  }
}
