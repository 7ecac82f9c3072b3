/** The kernel heap of libc/memory.c: one array of bytes with the free list threaded through it. */
module Heaps {
  import opened Bytes
  import opened HeapBlocks
  import opened HeapHeaders
  import opened HeapRuns

  class Heap {
    const lo: u32
    const mem: array<byte>
    ghost var blocks: seq<Block>

    ghost predicate Valid()
      reads this, mem
    {
      Formed() && Coalesced(blocks, lo, End())
    }

    /** The blocks tile the heap and the bytes spell them, coalesced or not. */
    ghost predicate Formed()
      reads this, mem
    {
      Placed() && Tiled(blocks, lo, End()) && Headers(mem[..], lo, blocks)
    }

    /** The heap does not begin at the null address and ends below the top of memory. */
    ghost predicate Placed() {
      0 < lo && HEADER <= mem.Length && lo + mem.Length < 0x1_0000_0000
    }

    ghost function End(): nat {
      lo + mem.Length
    }

    /** k_malloc_init: whatever the memory held, it becomes one free block. */
    constructor (start: u32, bytes: array<byte>)
      requires 0 < start && HEADER <= bytes.Length && start + bytes.Length < 0x1_0000_0000
      modifies bytes
      ensures lo == start && mem == bytes
      ensures Valid() && blocks == Fresh(start, start + bytes.Length)
      ensures Word(mem[..], 0) == bytes.Length - 8 && Word(mem[..], 4) == 0
    {
      lo := start;
      mem := bytes;
      blocks := Fresh(start, start + bytes.Length);
      new;
      SetWord(lo, mem.Length - HEADER);
      SetWord(lo + 4, 0);
    }

    /** The word at an address. */
    function At(address: u32): u32
      requires lo <= address && address - lo + 4 <= mem.Length
      reads mem
    {
      Word(mem[..], address - lo)
    }

    method SetWord(address: u32, w: u32)
      requires lo <= address && address - lo + 4 <= mem.Length
      modifies mem
      ensures At(address) == w
      ensures SameOutside(old(mem[..]), mem[..], lo, address, address + 4)
      ensures forall a: u32 :: lo <= a && a - lo + 4 <= mem.Length && (a + 4 <= address || address + 4 <= a) ==>
        At(a) == old(At(a))
    {
      var i := address - lo;
      var bytes := WordBytes(w);
      WordOfWordBytes(w);
      mem[i], mem[i + 1], mem[i + 2], mem[i + 3] := bytes[0], bytes[1], bytes[2], bytes[3];
    }

    /** Whether block l ends where block r begins. */
    predicate IsContiguous(l: u32, r: u32)
      requires lo <= l && l - lo + 4 <= mem.Length
      reads mem
    {
      l + HEADER + At(l) == r
    }

    /** k_malloc: 0 exactly when no free block has room, otherwise the tail of the first that does. */
    method Malloc(size: u32) returns (pointer: u32)
      requires Valid() && Servable(blocks, size)
      modifies mem, this`blocks
      ensures Valid() && HeapStep(old(blocks), Request.Malloc(size), blocks)
      ensures pointer == 0 <==> FirstFit(old(blocks), RoomFor(size), 0) == |old(blocks)|
      ensures pointer == 0 ==> blocks == old(blocks) && mem[..] == old(mem[..])
      ensures pointer != 0 ==> HandedOut(old(blocks), blocks, pointer, size)
      ensures PayloadsKept(old(mem[..]), mem[..], lo, old(LiveBlocks(blocks)))
    {
      hide Allocated, LiveBlocks;
      ghost var m, bs := mem[..], blocks;
      ghost var i: nat := 0;
      var node := lo;
      assert Spells(m, lo, bs, 0);
      while At(node) < RoomFor(size)
        invariant blocks == bs && mem[..] == m
        invariant i < |bs| && bs[i].free && node == bs[i].addr && Spells(m, lo, bs, i)
        invariant FirstFit(bs, RoomFor(size), 0) == FirstFit(bs, RoomFor(size), i)
        decreases |bs| - i
      {
        node := At(node + 4);
        ghost var k := NextFreeIndex(bs, i + 1);
        FirstFitSkips(bs, RoomFor(size), i, k);
        NextFreeInHeap(bs, lo, End(), i + 1);
        if node == 0 {
          RefusalIsStep(bs, size);
          return 0;
        }
        i := k;
        assert Spells(m, lo, bs, i);
      }
      AllocatedIsCarved(bs, size);
      pointer := Carve(node, size, i);
    }

    /** The writes of k_malloc: a smaller size for the block, and a header in front of what it gives up. */
    method SplitOff(node: u32, size: u32) returns (pointer: u32)
      requires lo <= node && Placed() && node - lo + HEADER <= mem.Length
      requires size + HEADER <= At(node) && node - lo + HEADER + At(node) <= mem.Length
      modifies mem
      ensures pointer == node + HEADER + old(At(node)) - size
      ensures At(node) == old(At(node)) - size - HEADER && At(node + 4) == old(At(node + 4))
      ensures At(pointer - HEADER) == size && At(pointer - 4) == 0
      ensures SameOutside(old(mem[..]), mem[..], lo, node, pointer)
    {
      SetWord(node, At(node) - (size + HEADER));
      var newNode := node + At(node) + HEADER;
      SetWord(newNode, size);
      SetWord(newNode + 4, 0);
      pointer := newNode + HEADER;
    }

    /** The end of k_malloc: the tail of the block at `node` becomes a live block. */
    method Carve(node: u32, size: u32, ghost i: nat) returns (pointer: u32)
      requires Valid() && i < |blocks| && blocks[i].free && node == blocks[i].addr && size + HEADER <= blocks[i].size
      modifies mem, this`blocks
      ensures Valid() && blocks == Carved(old(blocks), i, size)
      ensures HandedOut(old(blocks), blocks, pointer, size)
      ensures PayloadsKept(old(mem[..]), mem[..], lo, old(LiveBlocks(blocks)))
    {
      hide Word;
      ghost var m := mem[..];
      TiledInside(blocks, lo, End(), i);
      assert Spells(m, lo, blocks, i);
      pointer := SplitOff(node, size);
      CarveOutcome(m, mem[..], lo, End(), blocks, i, size);
      CarvedKeepsCoalesced(blocks, lo, End(), i, size);
      CarvedBlockIsNew(blocks, lo, End(), i, size);
      CarvingAddsOneLiveBlock(blocks, i, size);
      blocks := Carved(blocks, i, size);
    }

    /** The writes of merge: l takes over r's link and its bytes, and r's header is cleared. */
    method Absorb(l: u32, r: u32)
      requires Placed() && lo <= l && l + HEADER <= r && r - lo + HEADER <= mem.Length
      requires At(l) + At(r) + HEADER < 0x1_0000_0000
      modifies mem
      ensures At(l) == old(At(l)) + HEADER + old(At(r)) && At(l + 4) == old(At(r + 4))
      ensures At(r) == 0 && At(r + 4) == 0
      ensures SameOutside(old(mem[..]), mem[..], lo, l, r + HEADER)
    {
      SetWord(l + 4, At(r + 4));
      SetWord(l, At(l) + At(r) + HEADER);
      SetWord(r, 0);
      SetWord(r + 4, 0);
    }

    /** merge: the free block l takes over the free block r that follows it. */
    method Merge(l: u32, r: u32, ghost i: nat)
      requires Formed() && i + 1 < |blocks| && blocks[i].free && blocks[i + 1].free
      requires l == blocks[i].addr && r == blocks[i + 1].addr
      modifies mem, this`blocks
      ensures Formed() && blocks == Merged(old(blocks), i)
      ensures PayloadsKept(old(mem[..]), mem[..], lo, old(LiveBlocks(blocks)))
    {
      hide PayloadsKept, LiveBlocks, Headers, Tiled, Merged, Word;
      ghost var m, bs := mem[..], blocks;
      NeighboursSpelled(m, lo, End(), bs, i);
      Absorb(l, r);
      MergeOutcome(m, mem[..], lo, End(), bs, i);
      blocks := Merged(bs, i);
    }

    /** The two links k_free writes: the block joins the list between `previous` and `node`. */
    method Link(previous: u32, toFree: u32, node: u32, ghost p: nat, ghost j: nat)
      requires Formed() && FreeJustBefore(blocks, p, j) && previous == blocks[p].addr && toFree == blocks[j].addr
      requires node == NextFree(blocks, j + 1)
      modifies mem, this`blocks
      ensures Formed() && blocks == Unlived(old(blocks), j)
      ensures PayloadsKept(old(mem[..]), mem[..], lo, old(LiveBlocks(blocks)))
    {
      hide PayloadsKept, LiveBlocks, Word;
      ghost var m, bs := mem[..], blocks;
      TiledInOrder(bs, lo, End(), p, j);
      assert Spells(m, lo, bs, p) && Spells(m, lo, bs, j);
      SetWord(previous + 4, toFree);
      SetWord(toFree + 4, node);
      assert LinkWritten(m, mem[..], lo, bs, p, j);
      LinkSpells(m, mem[..], lo, End(), bs, p, j);
      LinkKeepsPayloads(m, mem[..], lo, End(), bs, p, j);
      UnlivedTiles(bs, lo, End(), j);
      blocks := Unlived(bs, j);
    }

    /** The end of k_free: the block just linked in is merged with the neighbours that are free. */
    method Coalesce(previous: u32, toFree: u32, node: u32, ghost bs: seq<Block>, ghost p: nat, ghost j: nat)
      requires Formed() && Tiled(bs, lo, End()) && FreeJustBefore(bs, p, j) && blocks == Unlived(bs, j)
      requires previous == bs[p].addr && toFree == bs[j].addr && node == NextFree(bs, j + 1)
      modifies mem, this`blocks
      ensures Formed() && blocks == Released(bs, j)
      ensures LiveBlocks(blocks) == old(LiveBlocks(blocks))
      ensures PayloadsKept(old(mem[..]), mem[..], lo, LiveBlocks(blocks))
    {
      hide LiveBlocks, Word;
      ghost var m, open, i := mem[..], blocks, LeftEnd(bs, j);
      var freed := toFree;
      LeftNeighbour(bs, lo, End(), p, j);
      assert Spells(m, lo, open, p);
      if IsContiguous(previous, toFree) {
        MergingKeepsLiveBlocks(open, p);
        Merge(previous, toFree, p);
        freed := previous;
      }
      ghost var left, w := blocks, mem[..];
      assert left == MergedLeft(bs, j);
      RightNeighbour(bs, lo, End(), p, j);
      assert Spells(w, lo, left, i);
      if IsContiguous(freed, node) {
        MergingKeepsLiveBlocks(left, i);
        Merge(freed, node, i);
      }
      PayloadsKeptTwice(m, w, mem[..], lo, LiveBlocks(open), LiveBlocks(open));
    }

    /** k_free: the block goes back and is coalesced with its neighbours; every other live payload is untouched. */
    method Free(pointer: u32)
      requires Valid() && pointer in Pointers(blocks)
      modifies mem, this`blocks
      ensures Valid() && HeapStep(old(blocks), Request.Free(pointer), blocks)
      ensures LiveBlocks(blocks) == old(LiveBlocks(blocks) - {BlockOf(blocks, pointer)})
      ensures Pointers(blocks) == old(Pointers(blocks)) - {pointer}
      ensures PayloadsKept(old(mem[..]), mem[..], lo, LiveBlocks(blocks))
    {
      ghost var m, bs := mem[..], blocks;
      ghost var j := IndexOfPointer(bs, pointer);
      TiledInside(bs, lo, End(), j);
      var toFree := pointer - HEADER;
      var node: u32, previous: u32 := lo, 0;
      ghost var p := -1;
      while node < toFree && node != 0
        invariant blocks == bs && mem[..] == m
        invariant -1 <= p < j && node == NextFree(bs, p + 1)
        invariant p == -1 ==> node == lo
        invariant 0 <= p ==> bs[p].free && previous == bs[p].addr
        decreases j - p
      {
        ghost var k := NextFreeIndex(bs, p + 1);
        NextFreeInHeap(bs, lo, End(), p + 1);
        AddressOrder(bs, lo, End(), k, j);
        TiledInside(bs, lo, End(), k);
        assert Spells(m, lo, bs, k);
        previous := node;
        node := At(node + 4);
        p := k;
      }
      PlaceFound(bs, lo, End(), p, j, node);
      Link(previous, toFree, node, p, j);
      ghost var w := mem[..];
      Coalesce(previous, toFree, node, bs, p, j);
      ReleasingDropsOneLiveBlock(bs, lo, End(), j);
      ReleasedKeepsCoalesced(bs, lo, End(), j);
      PayloadsKeptTwice(m, w, mem[..], lo, LiveBlocks(bs), LiveBlocks(blocks));
      FreeDropsPointer(bs, pointer, blocks, lo, End());
    }

    /** k_memcpy between two ranges of the heap, the first not overlapping the second from below. */
    method Copy(source: u32, dest: u32, bytes: nat)
      requires lo <= source && source + bytes <= End() && lo <= dest && dest + bytes <= End()
      requires source + bytes <= dest || dest <= source
      modifies mem
      ensures Copied(old(mem[..]), mem[..], lo, source, dest, bytes)
    {
      ghost var m := mem[..];
      for i := 0 to bytes
        invariant SameOutside(m, mem[..], lo, dest, dest + i)
        invariant mem[dest - lo..dest - lo + i] == m[source - lo..source - lo + i]
      {
        assert mem[source - lo + i] == m[source - lo + i];
        mem[dest - lo + i] := mem[source - lo + i];
      }
    }

    /** The copy k_realloc makes, between the payloads of live blocks b and c. */
    method CopyPayload(p: u32, np: u32, ghost b: Block, ghost c: Block)
      requires Valid() && b in LiveBlocks(blocks) && c in LiveBlocks(blocks) && b != c && b.size <= c.size
      requires p == b.addr + HEADER && np == c.addr + HEADER
      modifies mem
      ensures Valid() && blocks == old(blocks)
      ensures Carried(old(mem[..]), mem[..], lo, p, np, b.size)
      ensures PayloadsKept(old(mem[..]), mem[..], lo, LiveBlocks(blocks) - {c})
    {
      hide PayloadsKept, LiveBlocks;
      ghost var m := mem[..];
      BlockOfIsTheOnlyOne(blocks, lo, End(), b);
      BlockOfIsTheOnlyOne(blocks, lo, End(), c);
      PayloadsApart(blocks, lo, End(), b, c);
      ghost var i, j := IndexOfPointer(blocks, p), IndexOfPointer(blocks, np);
      assert Spells(m, lo, blocks, i);
      Copy(p, np, At(p - HEADER));
      OwnerWritesAreHarmless(m, mem[..], lo, End(), blocks, j, np, np + b.size);
    }

    /** The contents of live block b move into live block c, and b is freed. */
    method Transfer(p: u32, np: u32, ghost b: Block, ghost c: Block)
      requires Valid() && b in LiveBlocks(blocks) && c in LiveBlocks(blocks) && b != c && b.size <= c.size
      requires p == b.addr + HEADER && np == c.addr + HEADER
      modifies mem, this`blocks
      ensures Valid() && LiveBlocks(blocks) == old(LiveBlocks(blocks)) - {b}
      ensures Carried(old(mem[..]), mem[..], lo, p, np, b.size)
      ensures PayloadsKept(old(mem[..]), mem[..], lo, old(LiveBlocks(blocks)) - {b, c})
    {
      hide PayloadsKept, Carried, Coalesced, Headers;
      ghost var m, bs := mem[..], blocks;
      BlockOfIsTheOnlyOne(bs, lo, End(), b);
      CopyPayload(p, np, b, c);
      ghost var w := mem[..];
      Free(p);
      CarriedOn(m, w, mem[..], lo, p, np, b.size, LiveBlocks(blocks), c);
      PayloadsKeptAmong(w, mem[..], lo, LiveBlocks(blocks), LiveBlocks(bs) - {b, c});
      PayloadsKeptTwice(m, w, mem[..], lo, LiveBlocks(bs) - {c}, LiveBlocks(bs) - {b, c});
    }

    /** k_realloc to at least the old size: the contents move along, or nothing happens when there is no room. */
    method Realloc(p: u32, size: u32) returns (np: u32)
      requires Valid() && Servable(blocks, size)
      requires p != 0 ==> p in Pointers(blocks)
      requires p != 0 ==> BlockOf(blocks, p).size <= size || FirstFit(blocks, RoomFor(size), 0) == |blocks|
      modifies mem, this`blocks
      ensures Valid()
      ensures np == 0 <==> FirstFit(old(blocks), RoomFor(size), 0) == |old(blocks)|
      ensures np == 0 ==> blocks == old(blocks) && mem[..] == old(mem[..])
      ensures np != 0 ==>
        && HEADER < np
        && LiveBlocks(blocks) == old(LiveBlocks(blocks)) - Given(old(blocks), p) + {Block(np - HEADER, size, false)}
      ensures np != 0 && p != 0 ==> Carried(old(mem[..]), mem[..], lo, p, np, BlockOf(old(blocks), p).size)
      ensures PayloadsKept(old(mem[..]), mem[..], lo, old(LiveBlocks(blocks)) - Given(old(blocks), p))
    {
      hide PayloadsKept, Carried, Headers, HeapStep;
      ghost var m, live := mem[..], LiveBlocks(blocks);
      np := Malloc(size);
      if p != 0 && np != 0 {
        ghost var w, b, c := mem[..], BlockOf(old(blocks), p), Block(np - HEADER, size, false);
        assert live + {c} - {b, c} == live - {b} && live + {c} - {b} == live - {b} + {c};
        Transfer(p, np, b, c);
        CarriedFrom(m, w, mem[..], lo, p, np, b.size, live, b);
        PayloadsKeptTwice(m, w, mem[..], lo, live, live - {b});
      } else {
        PayloadsKeptAmong(m, mem[..], lo, live, live - Given(old(blocks), p));
      }
    }
  }

  /** One more block is live, of the size asked for and at the pointer returned. */
  ghost predicate HandedOut(bs: seq<Block>, cs: seq<Block>, pointer: nat, size: nat) {
    && HEADER < pointer && Block(pointer - HEADER, size, false) !in LiveBlocks(bs)
    && LiveBlocks(cs) == LiveBlocks(bs) + {Block(pointer - HEADER, size, false)}
  }

  /** The block a caller hands back with p, if any. */
  ghost function Given(bs: seq<Block>, p: nat): set<Block>
    requires p != 0 ==> bs != [] && bs[0].free && p in Pointers(bs)
  {
    if p == 0 then {} else {BlockOf(bs, p)}
  }

  /** `n` bytes have been copied from p to np, and nothing else has changed. */
  ghost predicate Copied(m: seq<byte>, w: seq<byte>, lo: nat, p: nat, np: nat, n: nat) {
    Carried(m, w, lo, p, np, n) && SameOutside(m, w, lo, np, np + n)
  }

  /**
   * Shrinking with k_realloc copies all of old block i into the smaller block j. Four bytes too many already replace
   * the size in the next block's header, so unless those bytes happen to spell that size the header is broken.
   */
  lemma ShrinkingBreaksTheNextHeader(m: seq<byte>, w: seq<byte>, lo: nat, hi: nat, bs: seq<Block>, i: nat, j: nat)
    requires Tiled(bs, lo, hi) && |m| == hi - lo && i < |bs| && j + 1 < |bs|
    requires lo <= bs[i].addr && End(bs[i]) <= hi && lo <= bs[j].addr && End(bs[j]) + HEADER <= hi
    requires bs[j].size + 4 <= bs[i].size
    requires Copied(m, w, lo, bs[i].addr + HEADER, bs[j].addr + HEADER, bs[i].size)
    ensures var copied := Word(m, bs[i].addr + HEADER + bs[j].size - lo);
      copied != bs[j + 1].size ==> !Spells(w, lo, bs, j + 1)
  {
    var from, to, n := bs[i].addr + HEADER, bs[j].addr + HEADER, bs[j].size;
    assert End(bs[j]) == bs[j + 1].addr;
    CopiedByte(m, w, lo, from, to, bs[i].size, n);
    CopiedByte(m, w, lo, from, to, bs[i].size, n + 1);
    CopiedByte(m, w, lo, from, to, bs[i].size, n + 2);
    CopiedByte(m, w, lo, from, to, bs[i].size, n + 3);
  }

  lemma CopiedByte(m: seq<byte>, w: seq<byte>, lo: nat, p: nat, np: nat, n: nat, k: nat)
    requires Carried(m, w, lo, p, np, n) && k < n
    ensures w[np - lo + k] == m[p - lo + k]
  {
    assert w[np - lo..np - lo + n][k] == m[p - lo..p - lo + n][k];
  }

  /** The input: old contents of ones. No block is 2^32 - 1 bytes long, so the next header is broken. */
  lemma ShrinkingOnesBreaksTheHeap(m: seq<byte>, w: seq<byte>, lo: nat, hi: nat, bs: seq<Block>, i: nat, j: nat)
    requires Tiled(bs, lo, hi) && |m| == hi - lo && hi < 0x1_0000_0000 && i < |bs| && j + 1 < |bs|
    requires bs[j].size + 4 <= bs[i].size
    requires Copied(m, w, lo, bs[i].addr + HEADER, bs[j].addr + HEADER, bs[i].size)
    requires forall a :: 0 <= a < |m| && bs[i].addr + HEADER <= lo + a < End(bs[i]) ==> m[a] == 0xFF
    ensures !Headers(w, lo, bs)
  {
    TiledInside(bs, lo, hi, i);
    TiledInside(bs, lo, hi, j);
    TiledInOrder(bs, lo, hi, j, j + 1);
    ShrinkingBreaksTheNextHeader(m, w, lo, hi, bs, i, j);
  }

  /** `n` bytes that were at p are now at np. */
  ghost predicate Carried(m: seq<byte>, w: seq<byte>, lo: nat, p: nat, np: nat, n: nat) {
    && |m| == |w| && lo <= p && lo <= np && p - lo + n <= |m| && np - lo + n <= |m|
    && w[np - lo..np - lo + n] == m[p - lo..p - lo + n]
  }

  lemma CarriedOn(m: seq<byte>, w: seq<byte>, x: seq<byte>, lo: nat, p: nat, np: nat, n: nat, live: set<Block>,
                  c: Block)
    requires Carried(m, w, lo, p, np, n) && PayloadsKept(w, x, lo, live) && c in live
    requires np == c.addr + HEADER && n <= c.size
    ensures Carried(m, x, lo, p, np, n)
  {
    assert PayloadKept(w, x, lo, c);
  }

  lemma CarriedFrom(m: seq<byte>, w: seq<byte>, x: seq<byte>, lo: nat, p: nat, np: nat, n: nat, live: set<Block>,
                    b: Block)
    requires PayloadsKept(m, w, lo, live) && b in live && Carried(w, x, lo, p, np, n)
    requires p == b.addr + HEADER && n <= b.size
    ensures Carried(m, x, lo, p, np, n)
  {
    assert PayloadKept(m, w, lo, b);
  }

  lemma PayloadsKeptAmong(m: seq<byte>, w: seq<byte>, lo: nat, live: set<Block>, fewer: set<Block>)
    requires PayloadsKept(m, w, lo, live) && fewer <= live
    ensures PayloadsKept(m, w, lo, fewer)
  {
  }
}
