/** Reading and writing a file through an open descriptor. */
module Files {
  import opened Bytes
  import opened FatTable
  import opened FatCache
  import opened Chains
  import opened FileBytes
  import opened DirEntries
  import opened Fat32Volume

  /** An open file: its directory entry, kept in memory, and the position in the file. */
  class FileHandle {
    var info: NodeInfo
    var offset: nat

    constructor (info: NodeInfo)
      ensures this.info == info && offset == 0
    {
      this.info := info;
      this.offset := 0;
    }
  }

  /** Whole clusters the seek loop passes: a position on a cluster border is approached from the left. */
  ghost function SeekSteps(o: nat): nat {
    if o == 0 then 0 else (o - 1) / 512
  }

  ghost function ClustersFor(end: nat): nat {
    SeekSteps(end) + 1
  }

  /** How many of `size` bytes at `o` a chain of `length` clusters has room for. */
  ghost function Stored(length: nat, o: nat, size: nat): (n: nat)
    ensures n <= size && (n > 0 ==> o + n <= 512 * length)
  {
    if o + size <= 512 * length then size else if o <= 512 * length then 512 * length - o else 0
  }

  /** How many bytes the write claims to have stored. */
  ghost function Reported(length: nat, o: nat, size: nat): (n: nat)
    ensures n <= size
  {
    var room := 512 - (o - 512 * SeekSteps(o));
    if o <= 512 * length then Stored(length, o, size) else if size <= room then size else room
  }

  /** The count returned is the count stored, except when the disk is too full even to reach the position. */
  lemma HonestExactlyWhenReached(length: nat, o: nat, size: nat)
    ensures Reported(length, o, size) == Stored(length, o, size)
       <==> o <= 512 * length || size == 0 || o % 512 == 0
  {
  }

  ghost function Wrote(g: Grown, o: nat, d: seq<byte>): Store {
    Store(g.st.fat, Put(g.st.data, g.chain, o, d))
  }

  /**
   * The outcome of writing `d` at `o`: the chain grown as far as needed and possible, and the bytes that fit spliced
   * in.
   */
  ghost function Written(g: Grown, o: nat, d: seq<byte>): (r: Grown)
    requires GoodGrown(g)
  {
    var r := Grow(g, ClustersFor(o + |d|));
    Grown(Wrote(r, o, d[..Stored(|r.chain|, o, |d|)]), r.chain)
  }

  lemma {:induction false} GrowStart(g: Grown)
    requires GoodGrown(g)
    ensures 1 <= |g.chain| && Grow(g, 1) == g
  {
  }

  lemma {:induction false} GrowNext(g: Grown, k: nat)
    requires GoodGrown(g)
    ensures Grow(g, k + 1) == if k < |Grow(g, k).chain| then Grow(g, k) else Append(Grow(g, k))
  {
    if |g.chain| <= k {
      GrowOneMore(g, k);
      GrowReaches(g, k);
    }
  }

  lemma {:induction false} GrowFull(g: Grown, a: nat, b: nat)
    requires GoodGrown(g) && a <= b && FirstFree(Grow(g, a).st.fat) == 0
    ensures Grow(g, b) == Grow(g, a)
  {
    GrowTwice(g, a, b);
  }

  lemma WroteIsShaped(g: Grown, o: nat, d: seq<byte>)
    requires GoodGrown(g)
    ensures Shaped(Wrote(g, o, d))
  {
  }

  /** Inside a chain, a walking step follows the link and changes nothing. */
  lemma StepInside(r: Grown, k: nat, o: nat, d: seq<byte>, allocating: bool)
    requires GoodGrown(r) && k + 1 < |r.chain|
    ensures Shaped(Wrote(r, o, d))
    ensures Advance(Wrote(r, o, d), r.chain[k], allocating) == (Wrote(r, o, d), r.chain[k + 1] as u32)
  {
    OnlyTailIsMarked(r.st.fat, r.chain);
    assert r.st.fat[r.chain[k]] == r.chain[k + 1];
  }

  /** At the tail, an allocating step appends a cluster, or stays put and reports 0 on a full disk. */
  lemma StepAtTail(r: Grown, o: nat, d: seq<byte>)
    requires GoodGrown(r) && o + |d| <= 512 * |r.chain|
    ensures Shaped(Wrote(r, o, d))
    ensures Advance(Wrote(r, o, d), r.chain[|r.chain| - 1], true)
      == (Wrote(Append(r), o, d), FirstFree(r.st.fat) as u32)
  {
    var f := FirstFree(r.st.fat);
    if f != 0 {
      ClaimAppends(r.st, r.chain);
      ChainIsAcyclic(r.st.fat, r.chain);
      PutThenAppend(r.st.data, r.chain, f, o, d);
    }
  }

  /** The walk stands on cluster k of the chain, or the disk was too full to reach it. */
  ghost predicate StandsAt(g: Grown, k: nat, current: u32) {
    if k < |g.chain| then current == g.chain[k] else current == 0 && FirstFree(g.st.fat) == 0
  }

  lemma StandsInRange(g: Grown, k: nat, current: u32)
    requires GoodGrown(g) && StandsAt(g, k, current)
    ensures if k < |g.chain| then 2 <= current < |g.st.fat| && !Closed(current) else Closed(current)
  {
  }

  /** The chain one allocating step from cluster k leaves behind. */
  ghost function Onward(g: Grown, k: nat): (n: Grown)
    requires GoodGrown(g)
    ensures GoodGrown(n) && g.chain <= n.chain
  {
    if k + 1 == |g.chain| then Append(g) else g
  }

  /** Walking on from cluster k is what growing to one more cluster means. */
  lemma {:induction false} GrowOnward(g0: Grown, k: nat, g: Grown, n: Grown)
    requires GoodGrown(g0) && g == Grow(g0, k + 1) && n == Grow(g0, k + 2)
    ensures k < |g.chain| || FirstFree(g.st.fat) == 0
    ensures n == Onward(g, k)
  {
    hide Grow, Onward, IsPath, Shaped;
    GrowNext(g0, k + 1);
    GrowReaches(g0, k + 1);
    OnwardIsNext(g, k);
  }

  lemma OnwardIsNext(g: Grown, k: nat)
    requires GoodGrown(g) && (k < |g.chain| || FirstFree(g.st.fat) == 0)
    ensures Onward(g, k) == if k + 1 < |g.chain| then g else Append(g)
  {
  }

  /** One allocating step from cluster k of a file whose first bytes are already written. */
  lemma WalkOn(g: Grown, k: nat, o: nat, d: seq<byte>)
    requires GoodGrown(g) && k < |g.chain| && o + |d| <= 512 * (k + 1)
    ensures Shaped(Wrote(g, o, d))
    ensures var (st, next) := Advance(Wrote(g, o, d), g.chain[k], true);
      st == Wrote(Onward(g, k), o, d) && StandsAt(Onward(g, k), k + 1, next)
  {
    if k + 1 < |g.chain| {
      StepInside(g, k, o, d, true);
    } else {
      StepAtTail(g, o, d);
    }
  }

  /** Writing the next piece inside cluster k. */
  lemma WritePiece(g: Grown, k: nat, o: nat, d: seq<byte>, offset: nat, piece: seq<byte>)
    requires GoodGrown(g) && k < |g.chain|
    requires o + |d| == 512 * k + offset && offset + |piece| <= 512
    ensures PutPart(Wrote(g, o, d), g.chain[k], offset, piece) == Wrote(g, o, d + piece)
  {
    ChainIsAcyclic(g.st.fat, g.chain);
    PutPartIsPut(Wrote(g, o, d), g.chain, k, offset, piece);
    PutJoins(g.st.data, g.chain, o, d, piece);
  }

  lemma WroteNothing(r: Grown, o: nat)
    requires GoodGrown(r)
    ensures Wrote(r, o, []) == r.st
  {
    ChainIsAcyclic(r.st.fat, r.chain);
    PutNothing(r.st.data, r.chain, o);
  }

  method SeekStep(vol: Volume, io: array<byte>, current: u32, ghost g: Grown, ghost k: nat) returns (next: u32)
    requires vol.Valid() && vol.dev.reliable && io as object != vol.buffer
    requires GoodGrown(g) && vol.store == g.st && StandsAt(g, k, current)
    modifies vol, vol.dev, vol.buffer, io
    ensures vol.Valid() && io[..] == old(io[..])
    ensures vol.store == Onward(g, k).st && StandsAt(Onward(g, k), k + 1, next)
  {
    if k < |g.chain| {
      WalkOn(g, k, 0, []);
      WroteNothing(g, 0);
      WroteNothing(Onward(g, k), 0);
    }
    next := vol.TraverseFat(io, 0, current, 0, 0, Idle, true);
  }

  /** Walks whole clusters towards position `o`, claiming clusters on the way if the chain is too short. */
  method SeekCluster(vol: Volume, io: array<byte>, start: u32, o: nat, ghost g0: Grown)
    returns (current: u32, offset: nat, ghost g: Grown)
    requires vol.Valid() && vol.dev.reliable && io as object != vol.buffer
    requires GoodGrown(g0) && vol.store == g0.st && start == g0.chain[0]
    modifies vol, vol.dev, vol.buffer, io
    ensures vol.Valid() && io[..] == old(io[..])
    ensures offset == o - 512 * SeekSteps(o)
    ensures g == Grow(g0, ClustersFor(o)) && GoodGrown(g)
    ensures vol.store == g.st && StandsAt(g, SeekSteps(o), current)
  {
    hide Sound, Shaped, IsChain, Grow, Onward;
    GrowStart(g0);
    current, offset, g := start, o, g0;
    ghost var k := 0;
    while offset > 512
      invariant vol.Valid() && io[..] == old(io[..])
      invariant offset == o - 512 * k && k <= SeekSteps(o)
      invariant GoodGrown(g) && g == Grow(g0, k + 1)
      invariant vol.store == g.st && StandsAt(g, k, current)
    {
      ghost var n := Grow(g0, k + 2);
      GrowOnward(g0, k, g, n);
      current := SeekStep(vol, io, current, g, k);
      offset, k, g := offset - 512, k + 1, n;
    }
  }

  /** Where the write loop stands after `written` bytes: inside cluster k, or never got to its starting position. */
  ghost predicate Writing(st: Store, g: Grown, k: nat, o: nat, offset: nat, d: seq<byte>, written: nat)
    requires GoodGrown(g) && written <= |d|
  {
    && st == Wrote(g, o, d[..written])
    && offset <= 512
    && if k < |g.chain| then o + written == 512 * k + offset
       else written == 0 && k == SeekSteps(o) && o == 512 * k + offset
  }

  /** The outcome once the last piece is written. */
  lemma WriteCompleted(g0: Grown, g: Grown, k: nat, o: nat, d: seq<byte>)
    requires GoodGrown(g0) && g == Grow(g0, k + 1) && k < |g.chain| && k == SeekSteps(o + |d|)
    ensures Written(g0, o, d) == Grown(Wrote(g, o, d), g.chain) && Reported(|g.chain|, o, |d|) == |d|
  {
    hide Grow, IsChain;
    assert d[..|d|] == d;
  }

  /** The outcome when the disk fills up after `written` bytes, at the end of the last cluster. */
  lemma WriteCutShort(g0: Grown, g: Grown, k: nat, o: nat, d: seq<byte>, written: nat)
    requires GoodGrown(g0) && g == Grow(g0, k + 1) && |g.chain| == k && FirstFree(g.st.fat) == 0
    requires written < |d| && o + written == 512 * k
    ensures Written(g0, o, d) == Grown(Wrote(g, o, d[..written]), g.chain) && Reported(|g.chain|, o, |d|) == written
  {
    hide Grow, IsChain;
    GrowFull(g0, k + 1, ClustersFor(o + |d|));
  }

  /** The outcome when the disk is too full even to reach the starting position. */
  lemma WriteNeverReached(g0: Grown, g: Grown, k: nat, o: nat, d: seq<byte>)
    requires GoodGrown(g0) && g == Grow(g0, k + 1) && |g.chain| <= k == SeekSteps(o) && FirstFree(g.st.fat) == 0
    ensures Written(g0, o, d) == Grown(Wrote(g, o, []), g.chain)
    ensures var room := 512 - (o - 512 * k);
      Reported(|g.chain|, o, |d|) == if |d| <= room then |d| else room
  {
    hide Grow, IsChain;
    GrowFull(g0, k + 1, ClustersFor(o + |d|));
    GrowStart(g);
    assert o > 512 * |g.chain|;
  }

  method WriteStep(vol: Volume, io: array<byte>, current: u32, n: nat, offset: nat, allocating: bool,
                   ghost g: Grown, ghost k: nat, ghost o: nat, ghost size: nat, written: nat) returns (next: u32)
    requires vol.Valid() && vol.dev.reliable && io as object != vol.buffer
    requires GoodGrown(g) && written + n <= size <= io.Length && offset + n <= 512
    requires StandsAt(g, k, current) && Writing(vol.store, g, k, o, offset, io[..size], written)
    modifies vol, vol.dev, vol.buffer, io
    ensures vol.Valid() && io[..] == old(io[..])
    ensures k >= |g.chain| ==> next == 0 && vol.store == old(vol.store)
    ensures k < |g.chain| && allocating ==>
      vol.store == Wrote(Onward(g, k), o, io[..written + n]) && StandsAt(Onward(g, k), k + 1, next)
    ensures k < |g.chain| && !allocating ==> vol.store == Wrote(g, o, io[..written + n])
  {
    hide Sound, IsChain, Onward, Put, PutPart;
    ghost var d := io[..size];
    assert d[..written] == io[..written] && d[..written] + d[written..written + n] == io[..written + n];
    assert io[written..written + n] == d[written..written + n];
    if k < |g.chain| {
      WritePiece(g, k, o, d[..written], offset, d[written..written + n]);
      WalkOn(g, k, o, d[..written] + d[written..written + n]);
    }
    WroteIsShaped(g, o, d[..written]);
    StandsInRange(g, k, current);
    next := vol.TraverseFat(io, written, current, n, offset, WritePart, allocating);
  }

  method WriteLoop(vol: Volume, io: array<byte>, start: u32, first: nat, size: nat, ghost g0: Grown, ghost g: Grown,
                   ghost o: nat)
    returns (written: nat)
    requires vol.Valid() && vol.dev.reliable && io as object != vol.buffer && size <= io.Length
    requires GoodGrown(g0) && GoodGrown(g) && g == Grow(g0, ClustersFor(o))
    requires vol.store == g.st && StandsAt(g, SeekSteps(o), start) && first == o - 512 * SeekSteps(o)
    modifies vol, vol.dev, vol.buffer, io
    ensures vol.Valid() && io[..] == old(io[..])
    ensures var r := Written(g0, o, io[..size]);
      vol.store == r.st && written == Reported(|r.chain|, o, size)
  {
    hide Sound, IsChain, Shaped, Grow, Onward, Written, Wrote, Put, PutPart, Reported, Closed;
    var current, offset: nat, remaining: nat := start, first, size;
    written := 0;
    ghost var k, r := SeekSteps(o), g;
    ghost var d := io[..size];
    ghost var whole := Written(g0, o, d);
    WroteNothing(g, o);
    assert d[..0] == [];
    if remaining == 0 {
      if k < |g.chain| {
        WriteCompleted(g0, g, k, o, d);
      } else {
        WriteNeverReached(g0, g, k, o, d);
      }
    }
    while remaining > 0
      invariant vol.Valid() && io[..] == old(io[..]) && d == io[..size]
      invariant written + remaining == size && SeekSteps(o) <= k
      invariant GoodGrown(r) && r == Grow(g0, k + 1)
      invariant remaining > 0 ==> StandsAt(r, k, current) && Writing(vol.store, r, k, o, offset, d, written)
      invariant remaining == 0 ==> vol.store == whole.st && written == Reported(|whole.chain|, o, size)
      decreases remaining, offset
    {
      var n := if remaining > 512 - offset then 512 - offset else remaining;
      current := WriteStep(vol, io, current, n, offset, n < remaining, r, k, o, size, written);
      assert d == io[..size] && io[..written + n] == d[..written + n];
      written := written + n;
      offset := 0;
      if k >= |r.chain| {
        WriteNeverReached(g0, r, k, o, d);
      } else if n == remaining {
        WriteCompleted(g0, r, k, o, d);
      } else {
        ghost var next := Grow(g0, k + 2);
        GrowOnward(g0, k, r, next);
        r, k := next, k + 1;
        StandsInRange(r, k, current);
        if k >= |r.chain| {
          WriteCutShort(g0, r, k, o, d, written);
        }
      }
      if current == 0 {
        break;
      }
      remaining := remaining - n;
    }
  }

  /** Writes the in-memory entry back to its slot. */
  method SaveDescriptor(vol: Volume, info: NodeInfo) returns (ok: bool)
    requires vol.Valid() && vol.dev.reliable
    requires 2 <= info.descriptorCluster < |vol.store.fat| && info.descriptorOffset < 16
    modifies vol`store, vol.dev
    ensures vol.Valid() && ok
    ensures vol.store == WithEntry(old(vol.store), info)
  {
    ok := vol.WritePartCluster(info.descriptorCluster, Render(info.node), 32 * info.descriptorOffset);
  }

  ghost function WithEntry(st: Store, info: NodeInfo): Store
    requires info.descriptorCluster < |st.data| && info.descriptorOffset < 16
  {
    PutPart(st, info.descriptorCluster, 32 * info.descriptorOffset, Render(info.node))
  }

  /** The entry of a file after `reported` bytes were written at `o`. */
  function Resized(info: NodeInfo, o: nat, reported: nat): NodeInfo
    requires o + reported < 0x8000_0000
  {
    info.(node := WithSize(info.node, if info.node.size > o + reported then info.node.size else o + reported))
  }

  method WriteBytesInFile(vol: Volume, handle: FileHandle, io: array<byte>, size: nat, ghost chain: seq<nat>)
    returns (written: nat)
    requires vol.Valid() && vol.dev.reliable && io as object != vol.buffer && size <= io.Length
    requires GoodGrown(Grown(vol.store, chain)) && chain[0] == StartOf(handle.info.node)
    requires 2 <= handle.info.descriptorCluster < |vol.store.fat| && handle.info.descriptorOffset < 16
    requires handle.offset + size < 0x8000_0000
    modifies vol, vol.dev, vol.buffer, io, handle
    ensures vol.Valid() && io[..] == old(io[..]) && handle.offset == old(handle.offset)
    ensures var r := Written(old(Grown(vol.store, chain)), old(handle.offset), io[..size]);
      && written == Reported(|r.chain|, old(handle.offset), size)
      && handle.info == Resized(old(handle.info), old(handle.offset), written)
      && |r.st.data| == |old(vol.store).data|
      && vol.store == WithEntry(r.st, handle.info) && !Dirty(vol.Image())
  {
    hide Sound, IsPath, Grow, Written, PutPart;
    ghost var g0 := Grown(vol.store, chain);
    WrittenSize(g0, handle.offset, io[..size]);
    var current, offset;
    ghost var g;
    current, offset, g := SeekCluster(vol, io, StartOf(handle.info.node), handle.offset, g0);
    written := WriteLoop(vol, io, current, offset, size, g0, g, handle.offset);
    handle.info := Resized(handle.info, handle.offset, written);
    var ok := vol.SaveCurrentFat();
    ok := SaveDescriptor(vol, handle.info);
  }

  lemma WrittenSize(g: Grown, o: nat, d: seq<byte>)
    requires GoodGrown(g)
    ensures |Written(g, o, d).st.data| == |g.st.data| && |Written(g, o, d).st.fat| == |g.st.fat|
  {
    GrowExtends(g, ClustersFor(o + |d|));
  }

  /** Bytes left before the end of the file, as the unsigned subtraction computes them: past the end it wraps around. */
  function Remaining(fileSize: u32, o: nat): nat {
    (fileSize - o) % 0x1_0000_0000
  }

  function Wanted(fileSize: u32, o: nat, size: nat): nat {
    if size > Remaining(fileSize, o) then Remaining(fileSize, o) else size
  }

  /** How many bytes the read claims: once the chain has ended, one more piece is counted before the loop notices. */
  ghost function Claimed(length: nat, o: nat, wanted: nat): (n: nat)
    ensures n <= wanted
  {
    var m := Stored(length, o, wanted);
    var room := 512 - (o - 512 * SeekSteps(o));
    if o > 512 * length then if wanted <= room then wanted else room
    else if wanted - m <= 512 then wanted else m + 512
  }

  /** The caller's buffer after `n` bytes of the file at `o` were copied to its front. */
  ghost function Delivered(buffer: seq<byte>, flat: seq<byte>, o: nat, n: nat): seq<byte>
    requires n <= |buffer| && (n > 0 ==> o + n <= |flat|)
  {
    if n == 0 then buffer else Splice(buffer, 0, flat[o..o + n])
  }

  /** Where the read loop stands: in cluster k, past the end of the chain, or never at its starting position. */
  ghost predicate ReadsAt(g: Grown, k: nat, current: u32)
    requires GoodGrown(g)
  {
    if k < |g.chain| then current == g.chain[k] else Closed(current)
  }

  /** Bytes asked for, bytes delivered and the position inside cluster k, while the read loop runs. */
  ghost predicate Reading(length: nat, k: nat, o: nat, offset: nat, done: nat) {
    && offset <= 512
    && if k < length then o + done == 512 * k + offset
       else if o <= 512 * length then k == length && offset == 0 && o + done == 512 * length
       else done == 0 && k == SeekSteps(o) && o == 512 * k + offset
  }

  lemma ReadsOn(g: Grown, k: nat, current: u32)
    requires GoodGrown(g) && ReadsAt(g, k, current)
    ensures if k < |g.chain| then
        !Closed(current) && 2 <= current < |g.st.fat| && g.st.fat[current] != 0 && ReadsAt(g, k + 1, g.st.fat[current])
      else Closed(current)
  {
    if k + 1 < |g.chain| {
      assert g.st.fat[g.chain[k]] == g.chain[k + 1];
    }
  }

  lemma ChainIsBacked(g: Grown)
    requires GoodGrown(g)
    ensures |g.chain| > 0 && Backed(g.st.data, g.chain)
  {
  }

  lemma DeliverMore(buffer: seq<byte>, data: seq<Sector>, chain: seq<nat>, o: nat, done: nat, k: nat, offset: nat,
                    n: nat)
    requires Backed(data, chain) && k < |chain| && offset + n <= 512
    requires o + done == 512 * k + offset && done + n <= |buffer|
    ensures Splice(Delivered(buffer, Flat(data, chain), o, done), done, data[chain[k]][offset..offset + n])
         == Delivered(buffer, Flat(data, chain), o, done + n)
  {
    FlatStretch(data, chain, k, offset, offset + n);
    hide Flat, Delivered;
    DeliverOn(buffer, Flat(data, chain), o, done, n);
  }

  lemma DeliverOn(buffer: seq<byte>, flat: seq<byte>, o: nat, done: nat, n: nat)
    requires o + done + n <= |flat| && done + n <= |buffer|
    ensures Splice(Delivered(buffer, flat, o, done), done, flat[o + done..o + done + n])
         == Delivered(buffer, flat, o, done + n)
  {
    assert flat[o..o + (done + n)] == flat[o..o + done] + flat[o + done..o + done + n];
    assert flat[o..o + 0] == [];
    SpliceOn(buffer, flat[o..o + done], flat[o + done..o + done + n]);
  }

  lemma SpliceOn(buffer: seq<byte>, d: seq<byte>, e: seq<byte>)
    requires |d| + |e| <= |buffer|
    ensures Splice(Splice(buffer, 0, d), |d|, e) == Splice(buffer, 0, d + e) && Splice(buffer, 0, []) == buffer
  {
  }

  method ReadStep(vol: Volume, io: array<byte>, done: nat, current: u32, n: nat, offset: nat, ghost g: Grown,
                  ghost k: nat,
                  ghost o: nat, ghost buffer: seq<byte>) returns (next: u32)
    requires vol.Valid() && vol.dev.reliable && io as object != vol.buffer
    requires GoodGrown(g) && vol.store == g.st && ReadsAt(g, k, current)
    requires offset + n <= 512 && done + n <= io.Length == |buffer|
    requires k < |g.chain| ==>
      o + done == 512 * k + offset && io[..] == Delivered(buffer, Flat(g.st.data, g.chain), o, done)
    modifies vol, vol.dev, vol.buffer, io
    ensures vol.Valid() && vol.store == g.st
    ensures if k < |g.chain| then
        ReadsAt(g, k + 1, next) && next != 0 && io[..] == Delivered(buffer, Flat(g.st.data, g.chain), o, done + n)
      else next == 0 && io[..] == old(io[..])
  {
    hide Sound, Flat, Delivered, IsPath, Shaped;
    if k < |g.chain| {
      ChainIsBacked(g);
      DeliverMore(buffer, g.st.data, g.chain, o, done, k, offset, n);
    }
    ReadsOn(g, k, current);
    next := vol.TraverseFat(io, done, current, n, offset, ReadPart, false);
  }

  method ReadLoop(vol: Volume, io: array<byte>, start: u32, first: nat, wanted: nat, ghost g: Grown, ghost o: nat)
    returns (done: nat)
    requires vol.Valid() && vol.dev.reliable && io as object != vol.buffer && wanted <= io.Length
    requires GoodGrown(g) && vol.store == g.st
    requires StandsAt(g, SeekSteps(o), start) && first == o - 512 * SeekSteps(o)
    modifies vol, vol.dev, vol.buffer, io
    ensures vol.Valid() && vol.store == g.st
    ensures done == Claimed(|g.chain|, o, wanted)
    ensures io[..] == Delivered(old(io[..]), Flat(g.st.data, g.chain), o, Stored(|g.chain|, o, wanted))
  {
    hide Sound, IsPath, Flat, Delivered;
    var current, offset: nat, remaining: nat := start, first, wanted;
    done := 0;
    ghost var k, buffer := SeekSteps(o), io[..];
    ChainIsBacked(g);
    ghost var flat := Flat(g.st.data, g.chain);
    DeliverNothing(buffer, flat, o);
    StandsInRange(g, k, current);
    while remaining > 0
      invariant vol.Valid() && vol.store == g.st && done + remaining == wanted
      invariant remaining > 0 ==> ReadsAt(g, k, current) && Reading(|g.chain|, k, o, offset, done)
      invariant o <= 512 * |g.chain| ==>
        Stored(|g.chain|, o, done) == done && io[..] == Delivered(buffer, flat, o, done)
      invariant o > 512 * |g.chain| ==> io[..] == buffer && (remaining == 0 ==> wanted == 0)
      decreases remaining, offset
    {
      var n := if remaining > 512 - offset then 512 - offset else remaining;
      current := ReadStep(vol, io, done, current, n, offset, g, k, o, buffer);
      done := done + n;
      offset := 0;
      if current == 0 {
        return;
      }
      k := k + 1;
      remaining := remaining - n;
    }
  }

  lemma DeliverNothing(buffer: seq<byte>, flat: seq<byte>, o: nat)
    ensures Delivered(buffer, flat, o, 0) == buffer
  {
  }

  method ReadBytesFromFile(vol: Volume, handle: FileHandle, io: array<byte>, size: nat, ghost chain: seq<nat>)
    returns (done: nat)
    requires vol.Valid() && vol.dev.reliable && io as object != vol.buffer && size <= io.Length
    requires GoodGrown(Grown(vol.store, chain)) && chain[0] == StartOf(handle.info.node)
    requires handle.offset + size < 0x8000_0000
    modifies vol, vol.dev, vol.buffer, io
    ensures vol.Valid()
    ensures var g, wanted := Grow(old(Grown(vol.store, chain)), ClustersFor(handle.offset)),
                             Wanted(handle.info.node.size, handle.offset, size);
      && vol.store == g.st
      && done == Claimed(|g.chain|, handle.offset, wanted)
      && Backed(g.st.data, g.chain)
      && var stored := Stored(|g.chain|, handle.offset, wanted);
        io[..] == Delivered(old(io[..]), Flat(g.st.data, g.chain), handle.offset, stored)
  {
    hide Sound, IsPath, Grow, Flat, Delivered, Claimed;
    ghost var g0 := Grown(vol.store, chain);
    var wanted := Wanted(handle.info.node.size, handle.offset, size);
    var current, offset;
    ghost var g;
    current, offset, g := SeekCluster(vol, io, StartOf(handle.info.node), handle.offset, g0);
    ChainIsBacked(g);
    done := ReadLoop(vol, io, current, offset, wanted, g, handle.offset);
  }
}
