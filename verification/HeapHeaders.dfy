/** How the bytes of the heap spell the blocks: a size word and a link word in front of every payload. */
module HeapHeaders {
  import opened Bytes
  import opened HeapBlocks

  /** Block i has its header inside `m`, with its size, and if it is free the address of the next free block or 0. */
  ghost predicate Spells(m: seq<byte>, lo: nat, bs: seq<Block>, i: nat)
    requires i < |bs|
  {
    && lo <= bs[i].addr && bs[i].addr - lo + HEADER <= |m|
    && Word(m, bs[i].addr - lo) == bs[i].size
    && (bs[i].free ==> Word(m, bs[i].addr - lo + 4) == NextFree(bs, i + 1))
  }

  ghost predicate Headers(m: seq<byte>, lo: nat, bs: seq<Block>) {
    forall i: nat :: i < |bs| ==> Spells(m, lo, bs, i)
  }

  /** The two memories agree except on addresses from `first` up to `beyond`. */
  ghost predicate SameOutside(m: seq<byte>, w: seq<byte>, lo: nat, first: nat, beyond: nat) {
    |m| == |w| && forall a :: 0 <= a < |m| && !(first <= lo + a < beyond) ==> w[a] == m[a]
  }

  /** The payload of every block in `live` is byte for byte the same. */
  ghost predicate PayloadsKept(m: seq<byte>, w: seq<byte>, lo: nat, live: set<Block>) {
    |m| == |w| && forall b :: b in live ==> PayloadKept(m, w, lo, b)
  }

  ghost predicate PayloadKept(m: seq<byte>, w: seq<byte>, lo: nat, b: Block)
    requires |m| == |w|
  {
    forall a :: 0 <= a < |m| && b.addr + HEADER <= lo + a < End(b) ==> w[a] == m[a]
  }

  lemma SpellsElsewhere(m: seq<byte>, w: seq<byte>, lo: nat, bs: seq<Block>, q: nat, first: nat, beyond: nat)
    requires q < |bs| && Spells(m, lo, bs, q) && SameOutside(m, w, lo, first, beyond)
    requires bs[q].addr + HEADER <= first || beyond <= bs[q].addr
    ensures Spells(w, lo, bs, q)
  {
    var at := bs[q].addr - lo;
    assert forall a :: at <= a < at + HEADER ==> w[a] == m[a];
  }

  lemma NeighboursSpelled(m: seq<byte>, lo: nat, hi: nat, bs: seq<Block>, i: nat)
    requires Tiled(bs, lo, hi) && Headers(m, lo, bs) && i + 1 < |bs|
    ensures Spells(m, lo, bs, i) && Spells(m, lo, bs, i + 1)
    ensures End(bs[i]) == bs[i + 1].addr && End(bs[i + 1]) <= hi
  {
    TiledInside(bs, lo, hi, i + 1);
    assert End(bs[i]) == bs[i + 1].addr;
  }

  /** Eight bytes in front of every payload stand its size and a link. */
  lemma HeaderBeforePayload(m: seq<byte>, lo: nat, hi: nat, bs: seq<Block>, i: nat)
    requires Tiled(bs, lo, hi) && |m| == hi - lo && Headers(m, lo, bs) && i < |bs|
    ensures lo <= bs[i].addr && bs[i].addr - lo + 8 + bs[i].size <= |m|
    ensures var h := m[bs[i].addr - lo..];
      bs[i].size == h[0] as int + 0x100 * h[1] as int + 0x1_0000 * h[2] as int + 0x100_0000 * h[3] as int
    ensures var h := m[bs[i].addr - lo..];
      bs[i].free ==>
        NextFree(bs, i + 1) == h[4] as int + 0x100 * h[5] as int + 0x1_0000 * h[6] as int + 0x100_0000 * h[7] as int
  {
    assert Spells(m, lo, bs, i);
    TiledInside(bs, lo, hi, i);
  }

  lemma SpellsMoved(m: seq<byte>, lo: nat, bs: seq<Block>, q: nat, cs: seq<Block>, k: nat)
    requires q < |bs| && k < |cs| && bs[q] == cs[k] && Spells(m, lo, bs, q)
    requires NextFree(bs, q + 1) == NextFree(cs, k + 1)
    ensures Spells(m, lo, cs, k)
  {
  }

  // ---- Carving ----

  lemma {:induction false} NextFreeInCarved(bs: seq<Block>, i: nat, n: nat, q: nat)
    requires i < |bs| && bs[i].free && n + HEADER <= bs[i].size && q <= |bs|
    ensures q <= i ==> NextFree(Carved(bs, i, n), q) == NextFree(bs, q)
    ensures i < q ==> NextFree(Carved(bs, i, n), q + 1) == NextFree(bs, q)
    decreases |bs| - q
  {
    var cs := Carved(bs, i, n);
    if q < i {
      assert cs[q] == bs[q];
    }
    if i < q < |bs| {
      assert cs[q + 1] == bs[q];
    }
    if q < |bs| {
      NextFreeInCarved(bs, i, n, q + 1);
    }
  }

  /** What a memory must say about block i for its tail to have become a live block. */
  ghost predicate CarveWritten(m: seq<byte>, w: seq<byte>, lo: nat, b: Block, n: nat)
    requires n + HEADER <= b.size && lo <= b.addr && End(b) <= lo + |m|
  {
    && SameOutside(m, w, lo, b.addr, End(b))
    && Word(w, b.addr - lo) == b.size - n - HEADER
    && Word(w, b.addr - lo + 4) == Word(m, b.addr - lo + 4)
    && Word(w, End(b) - n - HEADER - lo) == n
  }

  lemma CarveSpells(m: seq<byte>, w: seq<byte>, lo: nat, hi: nat, bs: seq<Block>, i: nat, n: nat)
    requires Tiled(bs, lo, hi) && |m| == hi - lo && Headers(m, lo, bs)
    requires i < |bs| && bs[i].free && n + HEADER <= bs[i].size && lo <= bs[i].addr && End(bs[i]) <= hi
    requires CarveWritten(m, w, lo, bs[i], n)
    ensures Headers(w, lo, Carved(bs, i, n))
  {
    var cs := Carved(bs, i, n);
    forall k: nat | k < |cs| ensures Spells(w, lo, cs, k) {
      if k == i || k == i + 1 {
        NextFreeInCarved(bs, i, n, i + 1);
        assert Spells(m, lo, bs, i);
      } else {
        CarveSpellsElsewhere(m, w, lo, hi, bs, i, n, if k < i then k else k - 1);
      }
    }
  }

  lemma CarveSpellsElsewhere(m: seq<byte>, w: seq<byte>, lo: nat, hi: nat, bs: seq<Block>, i: nat, n: nat, q: nat)
    requires Tiled(bs, lo, hi) && Headers(m, lo, bs)
    requires i < |bs| && bs[i].free && n + HEADER <= bs[i].size && SameOutside(m, w, lo, bs[i].addr, End(bs[i]))
    requires q < |bs| && q != i
    ensures Spells(w, lo, Carved(bs, i, n), if q < i then q else q + 1)
  {
    var cs, k := Carved(bs, i, n), if q < i then q else q + 1;
    assert cs[k] == bs[q];
    assert Spells(m, lo, bs, q);
    TiledInOrder(bs, lo, hi, if q < i then q else i, if q < i then i else q);
    SpellsElsewhere(m, w, lo, bs, q, bs[i].addr, End(bs[i]));
    NextFreeInCarved(bs, i, n, q + 1);
    SpellsMoved(w, lo, bs, q, cs, k);
  }

  // ---- Linking a freed block in ----

  /** p is the last free block before the live block j. */
  ghost predicate FreeJustBefore(bs: seq<Block>, p: nat, j: nat) {
    p < j < |bs| && bs[p].free && !bs[j].free && forall q :: p < q < j ==> !bs[q].free
  }

  lemma {:induction false} NextFreeInUnlived(bs: seq<Block>, p: nat, j: nat, q: nat)
    requires FreeJustBefore(bs, p, j) && q <= |bs|
    ensures q <= p || j < q ==> NextFree(Unlived(bs, j), q) == NextFree(bs, q)
    ensures p < q <= j ==> NextFree(Unlived(bs, j), q) == bs[j].addr
    decreases |bs| - q
  {
    if q < |bs| {
      NextFreeInUnlived(bs, p, j, q + 1);
    }
  }

  /** The address lies in the link word of the block's header. */
  predicate InLinkOf(b: Block, address: nat) {
    b.addr + 4 <= address < b.addr + HEADER
  }

  /** What the two links written by k_free leave in memory. */
  ghost predicate LinkWritten(m: seq<byte>, w: seq<byte>, lo: nat, bs: seq<Block>, p: nat, j: nat)
    requires FreeJustBefore(bs, p, j) && Spells(m, lo, bs, p) && Spells(m, lo, bs, j)
  {
    && |m| == |w|
    && (forall a :: 0 <= a < |m| && !InLinkOf(bs[p], lo + a) && !InLinkOf(bs[j], lo + a) ==> w[a] == m[a])
    && Word(w, bs[p].addr - lo + 4) == bs[j].addr
    && Word(w, bs[j].addr - lo + 4) == NextFree(bs, j + 1)
  }

  lemma LinkSpells(m: seq<byte>, w: seq<byte>, lo: nat, hi: nat, bs: seq<Block>, p: nat, j: nat)
    requires Tiled(bs, lo, hi) && |m| == hi - lo && Headers(m, lo, bs)
    requires FreeJustBefore(bs, p, j) && LinkWritten(m, w, lo, bs, p, j)
    ensures Headers(w, lo, Unlived(bs, j))
  {
    var cs := Unlived(bs, j);
    forall k: nat | k < |cs| ensures Spells(w, lo, cs, k) {
      assert Spells(m, lo, bs, k);
      NextFreeInUnlived(bs, p, j, k + 1);
      HeadersApart(bs, lo, hi, p, k);
      HeadersApart(bs, lo, hi, j, k);
      var at := bs[k].addr - lo;
      assert forall a :: at <= a < at + 4 ==> w[a] == m[a];
      assert k != p && k != j ==> forall a :: at + 4 <= a < at + 8 ==> w[a] == m[a];
    }
  }

  lemma HeadersApart(bs: seq<Block>, lo: nat, hi: nat, i: nat, j: nat)
    requires Tiled(bs, lo, hi) && i < |bs| && j < |bs|
    ensures i == j || bs[i].addr + HEADER <= bs[j].addr || bs[j].addr + HEADER <= bs[i].addr
  {
    if i != j {
      TiledInOrder(bs, lo, hi, if i < j then i else j, if i < j then j else i);
    }
  }

  // ---- Merging ----

  lemma {:induction false} NextFreeInMerged(bs: seq<Block>, i: nat, q: nat)
    requires i + 1 < |bs| && bs[i].free && q <= |bs| && q != i + 1
    ensures q <= i ==> NextFree(Merged(bs, i), q) == NextFree(bs, q)
    ensures i + 1 < q ==> NextFree(Merged(bs, i), q - 1) == NextFree(bs, q)
    decreases |bs| - q
  {
    var cs := Merged(bs, i);
    if q < i {
      assert cs[q] == bs[q];
    }
    if i + 1 < q < |bs| {
      assert cs[q - 1] == bs[q];
    }
    if q < |bs| && q != i {
      NextFreeInMerged(bs, i, q + 1);
    }
  }

  ghost predicate MergeWritten(m: seq<byte>, w: seq<byte>, lo: nat, bs: seq<Block>, i: nat)
    requires i + 1 < |bs| && lo <= bs[i].addr && bs[i].addr - lo + HEADER <= |m|
  {
    && SameOutside(m, w, lo, bs[i].addr, bs[i + 1].addr + HEADER)
    && Word(w, bs[i].addr - lo) == bs[i].size + HEADER + bs[i + 1].size
    && Word(w, bs[i].addr - lo + 4) == NextFree(bs, i + 2)
  }

  lemma MergeSpells(m: seq<byte>, w: seq<byte>, lo: nat, hi: nat, bs: seq<Block>, i: nat)
    requires Tiled(bs, lo, hi) && |m| == hi - lo && Headers(m, lo, bs)
    requires i + 1 < |bs| && bs[i].free && bs[i + 1].free && lo <= bs[i].addr && End(bs[i]) <= hi
    requires MergeWritten(m, w, lo, bs, i)
    ensures Headers(w, lo, Merged(bs, i))
  {
    var cs := Merged(bs, i);
    forall k: nat | k < |cs| ensures Spells(w, lo, cs, k) {
      if k == i {
        NextFreeInMerged(bs, i, i + 2);
      } else {
        MergeSpellsElsewhere(m, w, lo, hi, bs, i, if k < i then k else k + 1);
      }
    }
  }

  lemma MergeSpellsElsewhere(m: seq<byte>, w: seq<byte>, lo: nat, hi: nat, bs: seq<Block>, i: nat, q: nat)
    requires Tiled(bs, lo, hi) && Headers(m, lo, bs)
    requires i + 1 < |bs| && bs[i].free && SameOutside(m, w, lo, bs[i].addr, bs[i + 1].addr + HEADER)
    requires q < |bs| && q != i && q != i + 1
    ensures Spells(w, lo, Merged(bs, i), if q < i then q else q - 1)
  {
    var cs, k := Merged(bs, i), if q < i then q else q - 1;
    assert cs[k] == bs[q];
    assert Spells(m, lo, bs, q);
    if q < i {
      TiledInOrder(bs, lo, hi, q, i);
    } else {
      TiledInOrder(bs, lo, hi, i + 1, q);
    }
    SpellsElsewhere(m, w, lo, bs, q, bs[i].addr, bs[i + 1].addr + HEADER);
    NextFreeInMerged(bs, i, q + 1);
    SpellsMoved(w, lo, bs, q, cs, k);
  }

  /** A block reaches up to the next free block exactly when its right neighbour is free: what is_contiguous tests. */
  lemma ContiguousExactlyWhenNeighbours(bs: seq<Block>, lo: nat, hi: nat, i: nat)
    requires 0 < lo && Tiled(bs, lo, hi) && i < |bs|
    ensures End(bs[i]) == NextFree(bs, i + 1) <==> i + 1 < |bs| && bs[i + 1].free
  {
    var k := NextFreeIndex(bs, i + 1);
    if i + 1 < |bs| {
      assert End(bs[i]) == bs[i + 1].addr;
      if i + 1 < k < |bs| {
        TiledInOrder(bs, lo, hi, i + 1, k);
      }
    }
  }

  // ---- Walking the list ----

  lemma {:induction false} NextFreeSkips(bs: seq<Block>, i: nat, j: nat)
    requires i <= j <= |bs| && forall q :: i <= q < j ==> !bs[q].free
    ensures NextFree(bs, i) == NextFree(bs, j)
    decreases j - i
  {
    if i < j {
      NextFreeSkips(bs, i + 1, j);
    }
  }

  lemma {:induction false} FirstFitSkips(bs: seq<Block>, room: nat, i: nat, j: nat)
    requires i <= j <= |bs| && forall q :: i <= q < j ==> !(bs[q].free && room <= bs[q].size)
    ensures FirstFit(bs, room, i) == FirstFit(bs, room, j)
    decreases j - i
  {
    if i < j {
      FirstFitSkips(bs, room, i + 1, j);
    }
  }

  /** A null link ends the list, for no block lies at the null address. */
  lemma NextFreeInHeap(bs: seq<Block>, lo: nat, hi: nat, i: nat)
    requires 0 < lo && Tiled(bs, lo, hi) && i <= |bs|
    ensures NextFree(bs, i) == 0 <==> NextFreeIndex(bs, i) == |bs|
  {
    var k := NextFreeIndex(bs, i);
    if k < |bs| {
      TiledInside(bs, lo, hi, k);
    }
  }

  lemma AddressOrder(bs: seq<Block>, lo: nat, hi: nat, i: nat, j: nat)
    requires Tiled(bs, lo, hi) && i < |bs| && j < |bs|
    ensures bs[i].addr < bs[j].addr <==> i < j
  {
    if i < j {
      TiledInOrder(bs, lo, hi, i, j);
    } else if j < i {
      TiledInOrder(bs, lo, hi, j, i);
    }
  }

  /** Where k_free's walk stops: at the last free block before j, holding the first one after it. */
  lemma PlaceFound(bs: seq<Block>, lo: nat, hi: nat, p: int, j: nat, node: nat)
    requires 0 < lo && Tiled(bs, lo, hi) && bs[0].free && j < |bs| && !bs[j].free && -1 <= p < j
    requires node == NextFree(bs, p + 1) && (node < bs[j].addr ==> node == 0)
    requires 0 <= p ==> bs[p].free
    ensures 0 <= p && FreeJustBefore(bs, p, j) && node == NextFree(bs, j + 1)
  {
    var k := NextFreeIndex(bs, p + 1);
    NextFreeInHeap(bs, lo, hi, p + 1);
    if k < |bs| {
      AddressOrder(bs, lo, hi, k, j);
    }
    assert k > j;
    NextFreeSkips(bs, p + 1, j + 1);
  }

  lemma LeftNeighbour(bs: seq<Block>, lo: nat, hi: nat, p: nat, j: nat)
    requires 0 < lo && Tiled(bs, lo, hi) && FreeJustBefore(bs, p, j)
    ensures End(bs[p]) == bs[j].addr <==> p == LeftEnd(bs, j)
    ensures p == LeftEnd(bs, j) <==> p == j - 1
  {
    ContiguousExactlyWhenNeighbours(Unlived(bs, j), lo, hi, p);
    NextFreeInUnlived(bs, p, j, p + 1);
  }

  lemma RightNeighbour(bs: seq<Block>, lo: nat, hi: nat, p: nat, j: nat)
    requires 0 < lo && Tiled(bs, lo, hi) && FreeJustBefore(bs, p, j) && Tiled(MergedLeft(bs, j), lo, hi)
    ensures var left, i := MergedLeft(bs, j), LeftEnd(bs, j);
      && left[i].free && NextFree(left, i + 1) == NextFree(bs, j + 1)
      && (End(left[i]) == NextFree(left, i + 1) <==> i + 1 < |left| && left[i + 1].free)
  {
    var left, i := MergedLeft(bs, j), LeftEnd(bs, j);
    NextFreeInUnlived(bs, p, j, j + 1);
    if i < j {
      NextFreeInMerged(Unlived(bs, j), i, j + 1);
    }
    ContiguousExactlyWhenNeighbours(left, lo, hi, i);
  }

  // ---- Payloads ----

  /** A change confined to the free blocks from i to k reaches no payload that is in use. */
  lemma FreeRegionChangeKeepsPayloads(m: seq<byte>, w: seq<byte>, lo: nat, hi: nat, bs: seq<Block>, i: nat, k: nat)
    requires Tiled(bs, lo, hi) && i <= k < |bs| && |m| == hi - lo
    requires forall q :: i <= q <= k ==> bs[q].free
    requires SameOutside(m, w, lo, bs[i].addr, End(bs[k]))
    ensures PayloadsKept(m, w, lo, LiveBlocks(bs))
  {
    forall b | b in LiveBlocks(bs) ensures PayloadKept(m, w, lo, b) {
      var q: nat :| q < |bs| && !bs[q].free && bs[q] == b;
      if q < i {
        TiledInOrder(bs, lo, hi, q, i);
      } else {
        TiledInOrder(bs, lo, hi, k, q);
      }
    }
  }

  lemma LinkKeepsPayloads(m: seq<byte>, w: seq<byte>, lo: nat, hi: nat, bs: seq<Block>, p: nat, j: nat)
    requires Tiled(bs, lo, hi) && |m| == hi - lo && FreeJustBefore(bs, p, j)
    requires Spells(m, lo, bs, p) && Spells(m, lo, bs, j) && LinkWritten(m, w, lo, bs, p, j)
    ensures PayloadsKept(m, w, lo, LiveBlocks(bs))
  {
    forall b | b in LiveBlocks(bs) ensures PayloadKept(m, w, lo, b) {
      var q: nat :| q < |bs| && !bs[q].free && bs[q] == b;
      TiledInOrder(bs, lo, hi, if q < p then q else p, if q < p then p else q);
      if q != j {
        TiledInOrder(bs, lo, hi, if q < j then q else j, if q < j then j else q);
      }
    }
  }

  /** Whatever the owner of a live block writes into its payload, the heap and every other payload stay as they were. */
  lemma OwnerWritesAreHarmless(m: seq<byte>, w: seq<byte>, lo: nat, hi: nat, bs: seq<Block>, j: nat, first: nat,
                               beyond: nat)
    requires Tiled(bs, lo, hi) && |m| == hi - lo && Headers(m, lo, bs) && j < |bs| && !bs[j].free
    requires bs[j].addr + HEADER <= first && beyond <= End(bs[j]) && SameOutside(m, w, lo, first, beyond)
    ensures Headers(w, lo, bs) && PayloadsKept(m, w, lo, LiveBlocks(bs) - {bs[j]})
  {
    forall q: nat | q < |bs| ensures Spells(w, lo, bs, q) && (q != j ==> PayloadKept(m, w, lo, bs[q])) {
      assert Spells(m, lo, bs, q);
      if q != j {
        TiledInOrder(bs, lo, hi, if q < j then q else j, if q < j then j else q);
      }
      SpellsElsewhere(m, w, lo, bs, q, first, beyond);
    }
  }

  lemma CarveOutcome(m: seq<byte>, w: seq<byte>, lo: nat, hi: nat, bs: seq<Block>, i: nat, n: nat)
    requires Tiled(bs, lo, hi) && |m| == hi - lo && Headers(m, lo, bs)
    requires i < |bs| && bs[i].free && n + HEADER <= bs[i].size && lo <= bs[i].addr && End(bs[i]) <= hi
    requires CarveWritten(m, w, lo, bs[i], n)
    ensures Headers(w, lo, Carved(bs, i, n)) && PayloadsKept(m, w, lo, LiveBlocks(bs))
  {
    CarveSpells(m, w, lo, hi, bs, i, n);
    FreeRegionChangeKeepsPayloads(m, w, lo, hi, bs, i, i);
  }

  lemma MergeOutcome(m: seq<byte>, w: seq<byte>, lo: nat, hi: nat, bs: seq<Block>, i: nat)
    requires Tiled(bs, lo, hi) && |m| == hi - lo && Headers(m, lo, bs)
    requires i + 1 < |bs| && bs[i].free && bs[i + 1].free && lo <= bs[i].addr && End(bs[i]) <= hi
    requires MergeWritten(m, w, lo, bs, i)
    ensures Tiled(Merged(bs, i), lo, hi) && Headers(w, lo, Merged(bs, i)) && PayloadsKept(m, w, lo, LiveBlocks(bs))
  {
    MergeSpells(m, w, lo, hi, bs, i);
    MergedTiles(bs, lo, hi, i);
    FreeRegionChangeKeepsPayloads(m, w, lo, hi, bs, i, i + 1);
  }

  lemma PayloadsKeptTwice(m: seq<byte>, w: seq<byte>, x: seq<byte>, lo: nat, live: set<Block>, still: set<Block>)
    requires PayloadsKept(m, w, lo, live) && PayloadsKept(w, x, lo, still) && still <= live
    ensures PayloadsKept(m, x, lo, still)
  {
    forall b | b in still ensures PayloadKept(m, x, lo, b) {
      assert PayloadKept(m, w, lo, b) && PayloadKept(w, x, lo, b);
    }
  }
}
