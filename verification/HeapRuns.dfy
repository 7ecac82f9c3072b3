/** What every run of k_malloc and k_free keeps, in whatever order the requests come. */
module HeapRuns {
  import opened Bytes
  import opened HeapBlocks

  datatype Request = Malloc(n: u32) | Free(pointer: nat)

  /** One call: a request k_malloc can serve or refuse, or a pointer still in use for k_free. */
  ghost predicate HeapStep(bs: seq<Block>, r: Request, cs: seq<Block>) {
    match r
    case Malloc(n) => Servable(bs, n) && cs == Allocated(bs, n)
    case Free(p) => exists j: nat :: InUse(bs, j, p) && cs == Released(bs, j)
  }

  /**
   * The blocks k_malloc leaves for any 32-bit request: the first fit for the wrapped sum is carved, if there is one.
   */
  ghost function Allocated(bs: seq<Block>, n: u32): seq<Block> {
    var i := FirstFit(bs, RoomFor(n), 0);
    if i == |bs| then bs
    else
      var (rest, given) := CarveAsCoded(bs[i], n);
      bs[..i] + [rest, given] + bs[i + 1..]
  }

  /** The sum of size and header does not wrap, or no free block has even the wrapped room. */
  ghost predicate Servable(bs: seq<Block>, n: u32) {
    n + HEADER < 0x1_0000_0000 || FirstFit(bs, RoomFor(n), 0) == |bs|
  }

  /** Block j is live and p points at its payload. */
  ghost predicate InUse(bs: seq<Block>, j: nat, p: nat) {
    0 < j < |bs| && !bs[j].free && bs[j].addr + HEADER == p
  }

  ghost predicate IsHeapRun(states: seq<seq<Block>>, rs: seq<Request>) {
    |states| == |rs| + 1 && forall k :: 0 <= k < |rs| ==> HeapStep(states[k], rs[k], states[k + 1])
  }

  function Fresh(lo: nat, hi: nat): seq<Block>
    requires lo + HEADER <= hi
  {
    [Block(lo, hi - lo - HEADER, true)]
  }

  lemma {:induction false} RunKeepsCoalesced(states: seq<seq<Block>>, rs: seq<Request>, lo: nat, hi: nat)
    requires IsHeapRun(states, rs) && Coalesced(states[0], lo, hi)
    ensures Coalesced(states[|rs|], lo, hi)
  {
    if rs != [] {
      var n := |rs| - 1;
      RunKeepsCoalesced(states[..|rs|], rs[..n], lo, hi);
      StepKeepsCoalesced(states[n], rs[n], states[n + 1], lo, hi);
    }
  }

  /** One allocation, for any 32-bit request, leaves a heap that is tiled if and only if the request is servable. */
  lemma AllocationKeepsHeapExactlyWhenServable(bs: seq<Block>, n: u32, lo: nat, hi: nat)
    requires Coalesced(bs, lo, hi)
    ensures Tiled(Allocated(bs, n), lo, hi) <==> Servable(bs, n)
    ensures Servable(bs, n) ==> Coalesced(Allocated(bs, n), lo, hi)
  {
    var i := FirstFit(bs, RoomFor(n), 0);
    if i < |bs| {
      CarvingFitsExactlyWithoutWrap(bs[i], n);
      if n + HEADER < 0x1_0000_0000 {
        AllocatedIsCarved(bs, n);
        CarvedKeepsCoalesced(bs, lo, hi, i, n);
      } else {
        OverrunBreaksTiling(bs, i, CarveAsCoded(bs[i], n).0, CarveAsCoded(bs[i], n).1, lo, hi);
      }
    }
  }

  lemma {:induction false} AllocatedIsCarved(bs: seq<Block>, n: u32)
    requires n + HEADER < 0x1_0000_0000 && FirstFit(bs, RoomFor(n), 0) < |bs|
    ensures var i := FirstFit(bs, RoomFor(n), 0);
      n + HEADER <= bs[i].size && Allocated(bs, n) == Carved(bs, i, n)
  {
    CodedCarvingIsExact(bs[FirstFit(bs, RoomFor(n), 0)], n);
    hide FirstFit, RoomFor, CarveAsCoded;
  }

  lemma RefusalIsStep(bs: seq<Block>, n: u32)
    requires FirstFit(bs, RoomFor(n), 0) == |bs|
    ensures HeapStep(bs, Malloc(n), bs)
  {
  }

  lemma OverrunBreaksTiling(bs: seq<Block>, i: nat, rest: Block, given: Block, lo: nat, hi: nat)
    requires Tiled(bs, lo, hi) && i < |bs| && End(given) > End(bs[i])
    ensures !Tiled(bs[..i] + [rest, given] + bs[i + 1..], lo, hi)
  {
    var cs := bs[..i] + [rest, given] + bs[i + 1..];
    assert cs[i + 1] == given;
    if i + 1 < |bs| {
      assert End(bs[i]) == bs[i + 1].addr && cs[i + 2] == bs[i + 1];
      assert End(cs[i + 1]) != cs[i + 2].addr;
    }
  }

  /** On a fresh heap, a request of 2^32 - 4 bytes yields a pointer behind the end of the heap. */
  lemma WrappingRequestLeavesTheHeap(lo: nat, hi: nat)
    requires lo + HEADER + 4 <= hi
    ensures var cs := Allocated(Fresh(lo, hi), 0xFFFF_FFFC);
      |cs| == 2 && !cs[1].free && cs[1].addr + HEADER == hi + 4 && !Tiled(cs, lo, hi)
  {
    assert RoomFor(0xFFFF_FFFC) == 4;
    assert FirstFit(Fresh(lo, hi), 4, 0) == 0;
  }

  lemma RunTail(states: seq<seq<Block>>, rs: seq<Request>)
    requires IsHeapRun(states, rs) && rs != []
    ensures IsHeapRun(states[1..], rs[1..])
  {
    forall k | 0 <= k < |rs| - 1 ensures HeapStep(states[1..][k], rs[1..][k], states[1..][k + 1]) {
      assert HeapStep(states[k + 1], rs[k + 1], states[k + 1 + 1]);
    }
  }

  lemma StepKeepsCoalesced(bs: seq<Block>, r: Request, cs: seq<Block>, lo: nat, hi: nat)
    requires Coalesced(bs, lo, hi) && HeapStep(bs, r, cs)
    ensures Coalesced(cs, lo, hi)
  {
    match r
    case Malloc(n) =>
      AllocationKeepsHeapExactlyWhenServable(bs, n, lo, hi);
    case Free(p) =>
      var j: nat :| InUse(bs, j, p) && cs == Released(bs, j);
      ReleasedKeepsCoalesced(bs, lo, hi, j);
  }

  // ---- What callers hold ----

  lemma CarvingAddsOneLiveBlock(bs: seq<Block>, i: nat, n: nat)
    requires i < |bs| && bs[i].free && n + HEADER <= bs[i].size
    ensures LiveBlocks(Carved(bs, i, n)) == LiveBlocks(bs) + {Block(End(bs[i]) - n - HEADER, n, false)}
  {
    var cs := Carved(bs, i, n);
    var b := Block(End(bs[i]) - n - HEADER, n, false);
    assert cs[i + 1] == b && b in LiveBlocks(cs);
    assert forall k :: 0 <= k < i ==> cs[k] == bs[k];
    assert forall k :: i < k < |bs| ==> cs[k + 1] == bs[k];
    assert forall k :: i + 1 < k < |cs| ==> cs[k] == bs[k - 1];
    forall b | b in LiveBlocks(bs) ensures b in LiveBlocks(cs) {
      var k: nat :| k < |bs| && !bs[k].free && bs[k] == b;
      assert b == cs[if k < i then k else k + 1];
    }
  }

  /** The block handed out is none of those already live. */
  lemma CarvedBlockIsNew(bs: seq<Block>, lo: nat, hi: nat, i: nat, n: nat)
    requires Tiled(bs, lo, hi) && i < |bs| && bs[i].free && n + HEADER <= bs[i].size
    ensures Block(End(bs[i]) - n - HEADER, n, false) !in LiveBlocks(bs)
  {
    forall k | 0 <= k < |bs| && !bs[k].free ensures bs[k].addr != End(bs[i]) - n - HEADER {
      TiledInOrder(bs, lo, hi, if k < i then k else i, if k < i then i else k);
    }
  }

  lemma MergingKeepsLiveBlocks(bs: seq<Block>, i: nat)
    requires i + 1 < |bs| && bs[i].free && bs[i + 1].free
    ensures LiveBlocks(Merged(bs, i)) == LiveBlocks(bs)
  {
    var cs := Merged(bs, i);
    assert forall k :: 0 <= k < i ==> cs[k] == bs[k];
    assert forall k :: i < k < |cs| ==> cs[k] == bs[k + 1];
    forall b | b in LiveBlocks(bs) ensures b in LiveBlocks(cs) {
      var k: nat :| k < |bs| && !bs[k].free && bs[k] == b;
      assert b == cs[if k < i then k else k - 1];
    }
  }

  /** No two live blocks share a byte: of two different ones, one ends before the other begins. */
  lemma LiveBlocksAreDisjoint(bs: seq<Block>, lo: nat, hi: nat, b: Block, c: Block)
    requires Tiled(bs, lo, hi) && b in LiveBlocks(bs) && c in LiveBlocks(bs) && b != c
    ensures End(b) <= c.addr || End(c) <= b.addr
  {
    var i: nat :| i < |bs| && bs[i] == b;
    var j: nat :| j < |bs| && bs[j] == c;
    TiledInOrder(bs, lo, hi, if i < j then i else j, if i < j then j else i);
  }

  lemma ReleasingDropsOneLiveBlock(bs: seq<Block>, lo: nat, hi: nat, j: nat)
    requires Tiled(bs, lo, hi) && j < |bs| && !bs[j].free
    ensures LiveBlocks(Released(bs, j)) == LiveBlocks(bs) - {bs[j]}
  {
    var open, left, i := Unlived(bs, j), MergedLeft(bs, j), LeftEnd(bs, j);
    assert LiveBlocks(open) == LiveBlocks(bs) - {bs[j]} by {
      OnlyOneAtEachAddress(bs, lo, hi, j);
      assert forall k :: 0 <= k < |bs| && k != j ==> open[k] == bs[k];
    }
    if i < j {
      MergingKeepsLiveBlocks(open, i);
    }
    if i + 1 < |left| && left[i + 1].free {
      MergingKeepsLiveBlocks(left, i);
    }
  }

  lemma OnlyOneAtEachAddress(bs: seq<Block>, lo: nat, hi: nat, j: nat)
    requires Tiled(bs, lo, hi) && j < |bs|
    ensures forall k :: 0 <= k < |bs| && k != j ==> bs[k].addr != bs[j].addr
  {
    forall k | 0 <= k < |bs| && k != j ensures bs[k].addr != bs[j].addr {
      TiledInOrder(bs, lo, hi, if k < j then k else j, if k < j then j else k);
    }
  }

  // ---- Counting ----

  ghost function Count(bs: seq<Block>, free: bool): nat {
    if bs == [] then 0 else Count(bs[..|bs| - 1], free) + if bs[|bs| - 1].free == free then 1 else 0
  }

  ghost function Payloads(bs: seq<Block>): nat {
    if bs == [] then 0 else Payloads(bs[..|bs| - 1]) + bs[|bs| - 1].size
  }

  /** No byte of the heap is lost: payloads and headers add up to its length. */
  lemma {:induction false} EveryByteIsAccountedFor(bs: seq<Block>, lo: nat, hi: nat)
    requires Tiled(bs, lo, hi)
    ensures Payloads(bs) + 8 * |bs| == hi - lo
  {
    var n := |bs| - 1;
    if n > 0 {
      assert End(bs[n - 1]) == bs[n].addr;
      EveryByteIsAccountedFor(bs[..n], lo, bs[n].addr);
    } else {
      assert Payloads(bs[..0]) == 0;
    }
  }

  /** Fragmentation is bounded by use: at most one more free block than live ones, fewer when the last one is live. */
  lemma {:induction false} FreeBlocksAreFew(bs: seq<Block>)
    requires bs != [] && NoFreeNeighbours(bs)
    ensures Count(bs, true) <= Count(bs, false) + if bs[|bs| - 1].free then 1 else 0
  {
    var n := |bs| - 1;
    if n > 0 {
      assert !(bs[n - 1].free && bs[n].free);
      FreeBlocksAreFew(bs[..n]);
    } else {
      assert Count(bs[..0], true) == 0 && Count(bs[..0], false) == 0;
    }
  }

  /** With nothing live, full coalescing leaves the single block the heap began with. */
  lemma NothingLiveMeansFresh(bs: seq<Block>, lo: nat, hi: nat)
    requires Coalesced(bs, lo, hi) && LiveBlocks(bs) == {}
    ensures lo + HEADER <= hi && bs == Fresh(lo, hi)
  {
    assert forall k :: 0 <= k < |bs| && !bs[k].free ==> bs[k] in LiveBlocks(bs);
    SecondIsLive(bs);
  }

  lemma SecondIsLive(bs: seq<Block>)
    requires 0 < |bs| && bs[0].free && NoFreeNeighbours(bs)
    ensures |bs| > 1 ==> !bs[1].free
  {
    if |bs| > 1 {
      assert !(bs[0].free && bs[1].free);
    }
  }

  // ---- Freeing everything ----

  ghost function Pointers(bs: seq<Block>): set<nat> {
    set b | b in LiveBlocks(bs) :: b.addr + HEADER
  }

  ghost function Frees(ps: seq<nat>): seq<Request> {
    seq(|ps|, k requires 0 <= k < |ps| => Free(ps[k]))
  }

  /** The block a pointer was handed out for. */
  ghost function IndexOfPointer(bs: seq<Block>, p: nat): (j: nat)
    requires bs != [] && bs[0].free && p in Pointers(bs)
    ensures InUse(bs, j, p)
  {
    var b :| b in LiveBlocks(bs) && b.addr + HEADER == p;
    var j: nat :| j < |bs| && !bs[j].free && bs[j] == b;
    j
  }

  ghost function BlockOf(bs: seq<Block>, p: nat): (b: Block)
    requires bs != [] && bs[0].free && p in Pointers(bs)
    ensures b in LiveBlocks(bs) && b.addr + HEADER == p
  {
    bs[IndexOfPointer(bs, p)]
  }

  /** Live blocks are told apart by their pointers. */
  lemma BlockOfIsTheOnlyOne(bs: seq<Block>, lo: nat, hi: nat, b: Block)
    requires Coalesced(bs, lo, hi) && b in LiveBlocks(bs)
    ensures b.addr + HEADER in Pointers(bs) && BlockOf(bs, b.addr + HEADER) == b
  {
    OnlyOneAtEachAddress(bs, lo, hi, IndexOfPointer(bs, b.addr + HEADER));
  }

  /** Two live blocks lie inside the heap, one behind the other. */
  lemma PayloadsApart(bs: seq<Block>, lo: nat, hi: nat, b: Block, c: Block)
    requires Tiled(bs, lo, hi) && b in LiveBlocks(bs) && c in LiveBlocks(bs) && b != c
    ensures lo <= b.addr && End(b) <= hi && lo <= c.addr && End(c) <= hi
    ensures End(b) <= c.addr || End(c) <= b.addr
  {
    LiveBlocksAreDisjoint(bs, lo, hi, b, c);
    var i: nat :| i < |bs| && bs[i] == b;
    var j: nat :| j < |bs| && bs[j] == c;
    TiledInside(bs, lo, hi, i);
    TiledInside(bs, lo, hi, j);
  }

  lemma FreeDropsPointer(bs: seq<Block>, p: nat, cs: seq<Block>, lo: nat, hi: nat)
    requires Tiled(bs, lo, hi) && HeapStep(bs, Free(p), cs)
    ensures Pointers(cs) == Pointers(bs) - {p}
  {
    var j: nat :| InUse(bs, j, p) && cs == Released(bs, j);
    ReleasingDropsOneLiveBlock(bs, lo, hi, j);
    OnlyOneAtEachAddress(bs, lo, hi, j);
    assert forall b :: b in LiveBlocks(bs) && b.addr + HEADER == p ==> b == bs[j];
  }

  /** Whatever came before, freeing every pointer still held, in any order, restores the initial heap. */
  lemma {:induction false} FreeingAllRestores(states: seq<seq<Block>>, ps: seq<nat>, lo: nat, hi: nat)
    requires IsHeapRun(states, Frees(ps)) && Coalesced(states[0], lo, hi)
    requires forall p :: p in Pointers(states[0]) ==> p in ps
    ensures lo + HEADER <= hi && states[|ps|] == Fresh(lo, hi)
    decreases |ps|
  {
    var bs := states[0];
    if ps == [] {
      assert forall b :: b in LiveBlocks(bs) ==> b.addr + HEADER in Pointers(bs);
      NothingLiveMeansFresh(bs, lo, hi);
    } else {
      assert HeapStep(bs, Frees(ps)[0], states[1]);
      StepKeepsCoalesced(bs, Free(ps[0]), states[1], lo, hi);
      FreeDropsPointer(bs, ps[0], states[1], lo, hi);
      assert Frees(ps[1..]) == Frees(ps)[1..];
      RunTail(states, Frees(ps));
      FreeingAllRestores(states[1..], ps[1..], lo, hi);
    }
  }

  /** Every pointer held can be freed: a live block never is the first, which is always free. */
  lemma HeldPointersCanBeFreed(bs: seq<Block>, p: nat, lo: nat, hi: nat)
    requires Coalesced(bs, lo, hi) && p in Pointers(bs)
    ensures exists cs :: HeapStep(bs, Free(p), cs)
  {
    var j := IndexOfPointer(bs, p);
    assert HeapStep(bs, Free(p), Released(bs, j));
  }
}
