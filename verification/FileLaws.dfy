/** What reading and writing promise about the contents of a file. */
module FileLaws {
  import opened Bytes
  import opened FatTable
  import opened FatCache
  import opened Chains
  import opened FileBytes
  import opened DirEntries
  import opened Fat32Volume
  import opened Files

  /** A file as its descriptor sees it: the chain in its volume, the size and the position. */
  datatype OpenFile = OpenFile(g: Grown, size: nat, offset: nat)

  /** The chain holds the whole file, and only zeros after it. */
  ghost predicate GoodFile(f: OpenFile) {
    && GoodGrown(f.g)
    && f.size <= 512 * |f.g.chain|
    && SlackIsZero(f)
  }

  ghost predicate SlackIsZero(f: OpenFile)
    requires GoodGrown(f.g)
  {
    ChainIsBacked(f.g);
    forall p :: f.size <= p < 512 * |f.g.chain| ==> Flat(f.g.st.data, f.g.chain)[p] == 0
  }

  ghost function Text(f: OpenFile): (t: seq<byte>)
    requires GoodFile(f)
    ensures |t| == f.size
  {
    ChainIsBacked(f.g);
    Flat(f.g.st.data, f.g.chain)[..f.size]
  }

  /** The disk can hold the file up to position `end`. */
  ghost predicate Reachable(f: OpenFile, end: nat) {
    end <= 512 * (|f.g.chain| + |Free(f.g.st.fat)|)
  }

  /** What one call of write does to the file and its descriptor, and the count it returns. */
  ghost function WriteCall(f: OpenFile, d: seq<byte>): (OpenFile, nat)
    requires GoodGrown(f.g)
  {
    var r := Written(f.g, f.offset, d);
    var n := Reported(|r.chain|, f.offset, |d|);
    (OpenFile(r, if f.size > f.offset + n then f.size else f.offset + n, f.offset + n), n)
  }

  lemma WrittenIsGood(g: Grown, o: nat, d: seq<byte>)
    requires GoodGrown(g)
    ensures GoodGrown(Written(g, o, d))
  {
    var r := Grow(g, ClustersFor(o + |d|));
    WroteIsShaped(r, o, d[..Stored(|r.chain|, o, |d|)]);
  }

  /** The exact length of the chain after a write. */
  lemma WrittenLength(f: OpenFile, d: seq<byte>)
    requires GoodGrown(f.g)
    ensures var end, room := f.offset + |d|, |f.g.chain| + |Free(f.g.st.fat)|;
      var want := if end == 0 then 1 else (end + 511) / 512;
      |Written(f.g, f.offset, d).chain|
        == if want <= |f.g.chain| then |f.g.chain| else if want <= room then want else room
  {
    GrowLength(f.g, ClustersFor(f.offset + |d|));
  }

  /** The size recorded stays within the chain exactly when the starting position could be reached. */
  lemma SizeFitsExactlyWhenReachable(f: OpenFile, d: seq<byte>)
    requires GoodFile(f)
    ensures var f' := WriteCall(f, d).0;
      f'.size <= 512 * |f'.g.chain| <==> Reachable(f, f.offset)
  {
    hide Grow, IsPath, Written;
    WrittenLength(f, d);
    WrittenKeepsPrefix(f.g, f.offset, d);
  }

  /** The count returned is the count stored if and only if the position was reachable, or nothing depends on it. */
  lemma CountIsHonestExactlyWhen(f: OpenFile, d: seq<byte>)
    requires GoodGrown(f.g)
    ensures var (f', n) := WriteCall(f, d);
      n == Stored(|f'.g.chain|, f.offset, |d|) <==> Reachable(f, f.offset) || d == [] || f.offset % 512 == 0
  {
    WrittenLength(f, d);
    hide Written, GoodGrown;
    HonestExactlyWhenReached(|WriteCall(f, d).0.g.chain|, f.offset, |d|);
  }

  /** A volume of one FAT sector with every cluster in use. */
  ghost function FullVolume(): (st: Store)
    ensures |st.fat| == |st.data| == 128
    ensures forall c :: 0 <= c < 128 ==> st.fat[c] == END_MARK && st.data[c] == ZeroSector()
  {
    Store(seq(128, _ => END_MARK), seq(128, _ => ZeroSector()))
  }

  /** There, a descriptor on an empty file of one cluster stands at 600. */
  ghost function FullVolumeFile(): OpenFile {
    OpenFile(Grown(FullVolume(), [5]), 0, 600)
  }

  /** One byte written is reported, none is stored, and the size recorded exceeds the chain. */
  lemma {:induction false} FullVolumeOverCounts()
    ensures var f := FullVolumeFile();
      && GoodFile(f) && !Reachable(f, f.offset) && WriteCall(f, [1]).1 == 1
      && var f' := WriteCall(f, [1]).0;
        Stored(|f'.g.chain|, f.offset, 1) == 0 && f'.size == 601 && |f'.g.chain| == 1
  {
    hide FullVolume, FirstFreeFrom;
    var f := FullVolumeFile();
    FirstFreeFromIsLeast(f.g.st.fat, 2);
    assert FirstFree(f.g.st.fat) == 0;
    assert Free(f.g.st.fat) == {};
    assert Written(f.g, 600, [1]).chain == [5];
    assert f.g.st.data[5] == ZeroSector();
  }

  lemma GoodFileParts(f: OpenFile)
    requires GoodFile(f)
    ensures GoodGrown(f.g) && f.size <= 512 * |f.g.chain| && |f.g.chain| > 0
  {
    ChainIsBacked(f.g);
  }

  lemma WrittenKeepsPrefix(g: Grown, o: nat, d: seq<byte>)
    requires GoodGrown(g)
    ensures g.chain <= Written(g, o, d).chain
  {
  }

  /** The bytes of the chain after a write: padded with zeros by growth, with what fits of `d` spliced in. */
  lemma WrittenBytes(g: Grown, o: nat, d: seq<byte>)
    requires GoodGrown(g)
    ensures var r := Written(g, o, d);
      var n := Stored(|r.chain|, o, |d|);
      && |r.chain| >= |g.chain| && Backed(g.st.data, g.chain) && Backed(r.st.data, r.chain)
      && (o + n <= 512 * |r.chain| ==>
           Flat(r.st.data, r.chain)
             == Splice(Flat(g.st.data, g.chain) + Zeros(512 * (|r.chain| - |g.chain|)), o, d[..n]))
  {
    hide Grow, Flat, IsPath;
    var r := Grow(g, ClustersFor(o + |d|));
    var n := Stored(|r.chain|, o, |d|);
    ChainIsBacked(g);
    ChainIsBacked(r);
    ChainIsAcyclic(r.st.fat, r.chain);
    FlatGrow(g, ClustersFor(o + |d|));
    if o + n <= 512 * |r.chain| {
      FlatPut(r.st.data, r.chain, o, d[..n]);
    }
  }

  /**
   * The main law of writing. Whenever the starting position can be reached, the count returned is the count stored;
   * the contents are the old ones, extended with zeros, with that prefix of the data spliced in; and every byte is
   * stored if the disk can hold them all.
   */
  lemma WriteIsSplice(f: OpenFile, d: seq<byte>)
    requires GoodFile(f) && Reachable(f, f.offset)
    ensures var (f', n) := WriteCall(f, d);
      && GoodFile(f') && n <= |d| && f'.offset == f.offset + n
      && f'.size == (if f.size > f.offset + n then f.size else f.offset + n)
      && Text(f') == Splice(Text(f) + Zeros(f'.size - f.size), f.offset, d[..n])
      && n == Stored(|f'.g.chain|, f.offset, |d|)
      && var room := 512 * (|f.g.chain| + |Free(f.g.st.fat)|);
        n == if f.offset + |d| <= room then |d| else room - f.offset
  {
    hide Grow, Flat, IsPath, Written;
    GoodFileParts(f);
    WrittenIsGood(f.g, f.offset, d);
    WrittenLength(f, d);
    WrittenBytes(f.g, f.offset, d);
    SizeFitsExactlyWhenReachable(f, d);
    var (f', n) := WriteCall(f, d);
    var before, after := Flat(f.g.st.data, f.g.chain), Flat(f'.g.st.data, f'.g.chain);
    SplicedText(before, after, 512 * (|f'.g.chain| - |f.g.chain|), f.size, f'.size, f.offset, d[..n]);
  }

  lemma SplicedText(before: seq<byte>, after: seq<byte>, pad: nat, size: nat, size': nat, o: nat, d: seq<byte>)
    requires size <= |before| && o + |d| <= |before| + pad && size' <= |before| + pad
    requires after == Splice(before + Zeros(pad), o, d)
    requires forall p :: size <= p < |before| ==> before[p] == 0
    requires size' == if size > o + |d| then size else o + |d|
    ensures after[..size'] == Splice(before[..size] + Zeros(size' - size), o, d)
    ensures forall p :: size' <= p < |after| ==> after[p] == 0
  {
  }

  lemma AppendThroughWrote(g: Grown, o: nat, d: seq<byte>)
    requires GoodGrown(g) && o + |d| <= 512 * |g.chain|
    ensures GoodGrown(Grown(Wrote(g, o, d), g.chain))
    ensures Append(Grown(Wrote(g, o, d), g.chain)) == Grown(Wrote(Append(g), o, d), Append(g).chain)
  {
    WroteIsShaped(g, o, d);
    if FirstFree(g.st.fat) != 0 {
      ClaimAppends(g.st, g.chain);
      ChainIsAcyclic(g.st.fat, g.chain);
      PutThenAppend(g.st.data, g.chain, FirstFree(g.st.fat), o, d);
    }
  }

  /** Growing after writing is writing after growing. */
  lemma {:induction false} GrowThroughWrote(g: Grown, o: nat, d: seq<byte>, want: nat)
    requires GoodGrown(g) && o + |d| <= 512 * |g.chain|
    ensures GoodGrown(Grown(Wrote(g, o, d), g.chain))
    ensures Grow(Grown(Wrote(g, o, d), g.chain), want) == Grown(Wrote(Grow(g, want), o, d), Grow(g, want).chain)
    decreases want - |g.chain|
  {
    hide Wrote, IsPath;
    AppendThroughWrote(g, o, d);
    assert Wrote(g, o, d).fat == g.st.fat by { WroteFat(g, o, d); }
    if !(want <= |g.chain| || FirstFree(g.st.fat) == 0) {
      GrowThroughWrote(Append(g), o, d, want);
    }
  }

  lemma WroteFat(g: Grown, o: nat, d: seq<byte>)
    ensures Wrote(g, o, d).fat == g.st.fat
  {
  }

  /** A second write where the first one stopped amounts to one write of both pieces, also when the disk fills up. */
  lemma WritesJoin(g: Grown, o: nat, d: seq<byte>, e: seq<byte>, r: Grown)
    requires GoodGrown(g) && r == Written(g, o, d) && o <= 512 * |r.chain|
    ensures var n := Stored(|r.chain|, o, |d|);
      var both := Written(g, o, d + e);
      && GoodGrown(r)
      && Written(r, o + n, e) == both
      && n + Stored(|both.chain|, o + n, |e|) == Stored(|both.chain|, o, |d + e|)
  {
    hide IsPath, Wrote;
    WrittenIsGood(g, o, d);
    var a, b := Grow(g, ClustersFor(o + |d|)), Grow(g, ClustersFor(o + |d + e|));
    GrowReaches(g, ClustersFor(o + |d|));
    assert d[..|d|] == d;
    if Stored(|r.chain|, o, |d|) == |d| {
      WritesJoinFully(g, o, d, e, a, b);
    } else {
      WritesJoinCutShort(g, o, d, e, a, b);
    }
  }

  lemma {:induction false} WritesJoinFully(g: Grown, o: nat, d: seq<byte>, e: seq<byte>, a: Grown, b: Grown)
    requires GoodGrown(g) && a == Grow(g, ClustersFor(o + |d|)) && b == Grow(g, ClustersFor(o + |d + e|))
    requires o + |d| <= 512 * |a.chain| && GoodGrown(Grown(Wrote(a, o, d), a.chain))
    ensures Written(Grown(Wrote(a, o, d), a.chain), o + |d|, e) == Written(g, o, d + e)
    ensures |d| + Stored(|b.chain|, o + |d|, |e|) == Stored(|b.chain|, o, |d + e|)
  {
    hide Grow, IsPath, Put;
    GrowThroughWrote(a, o, d, ClustersFor(o + |d + e|));
    GrowTwice(g, ClustersFor(o + |d|), ClustersFor(o + |d + e|));
    ChainIsAcyclic(b.st.fat, b.chain);
    ChainIsBacked(b);
    GrowKeepsPrefix(a, ClustersFor(o + |d + e|));
    var n := Stored(|b.chain|, o + |d|, |e|);
    PutJoins(b.st.data, b.chain, o, d, e[..n]);
    assert (d + e)[..|d| + n] == d + e[..n];
  }

  lemma GrowKeepsPrefix(g: Grown, want: nat)
    requires GoodGrown(g)
    ensures |g.chain| <= |Grow(g, want).chain|
  {
  }

  lemma {:induction false} WritesJoinCutShort(g: Grown, o: nat, d: seq<byte>, e: seq<byte>, a: Grown, b: Grown)
    requires GoodGrown(g) && a == Grow(g, ClustersFor(o + |d|)) && b == Grow(g, ClustersFor(o + |d + e|))
    requires o <= 512 * |a.chain| < o + |d| && FirstFree(a.st.fat) == 0
    requires var n := 512 * |a.chain| - o; GoodGrown(Grown(Wrote(a, o, d[..n]), a.chain))
    ensures var n := 512 * |a.chain| - o;
      && Written(Grown(Wrote(a, o, d[..n]), a.chain), o + n, e) == Written(g, o, d + e)
      && b.chain == a.chain
  {
    hide Grow, IsPath, Put;
    var n := 512 * |a.chain| - o;
    var r := Grown(Wrote(a, o, d[..n]), a.chain);
    GrowFull(g, ClustersFor(o + |d|), ClustersFor(o + |d + e|));
    GrowStuck(r, ClustersFor(o + n + |e|));
    WroteNothing(r, o + n);
    assert (d + e)[..n] == d[..n];
  }

  lemma GrowStuck(g: Grown, want: nat)
    requires GoodGrown(g) && FirstFree(g.st.fat) == 0
    ensures Grow(g, want) == g
  {
  }

  /** Two calls through one descriptor leave the same file, and the same descriptor, as one call with both pieces. */
  lemma TwoWritesAreOne(f: OpenFile, d: seq<byte>, e: seq<byte>)
    requires GoodGrown(f.g) && Reachable(f, f.offset)
    ensures var (f1, n1) := WriteCall(f, d);
      && GoodGrown(f1.g) && Reachable(f1, f1.offset)
      && WriteCall(f1, e).0 == WriteCall(f, d + e).0
      && n1 + WriteCall(f1, e).1 == WriteCall(f, d + e).1
  {
    hide Grow, IsPath, Written;
    var r := Written(f.g, f.offset, d);
    WrittenLength(f, d);
    WrittenLength(f, d + e);
    WritesJoin(f.g, f.offset, d, e, r);
  }

  /** Successive calls of write through one descriptor. */
  ghost function WriteRun(f: OpenFile, ds: seq<seq<byte>>): OpenFile
    requires GoodGrown(f.g) && |ds| > 0
    decreases |ds|
  {
    WrittenIsGood(f.g, f.offset, ds[0]);
    if |ds| == 1 then WriteCall(f, ds[0]).0 else WriteRun(WriteCall(f, ds[0]).0, ds[1..])
  }

  function Concat(ds: seq<seq<byte>>): seq<byte> {
    if ds == [] then [] else ds[0] + Concat(ds[1..])
  }

  /** However the data is cut into calls, the file, its size and the position come out the same. */
  lemma {:induction false} ChunkingDoesNotMatter(f: OpenFile, ds: seq<seq<byte>>)
    requires GoodGrown(f.g) && Reachable(f, f.offset) && |ds| > 0
    ensures WriteRun(f, ds) == WriteCall(f, Concat(ds)).0
    decreases |ds|
  {
    hide Written;
    if |ds| == 1 {
      assert Concat(ds) == ds[0] + Concat([]) == ds[0];
    } else {
      TwoWritesAreOne(f, ds[0], Concat(ds[1..]));
      ChunkingDoesNotMatter(WriteCall(f, ds[0]).0, ds[1..]);
    }
  }

  /** A read inside the file finds the chain long enough: it claims nothing and delivers exactly the bytes asked for. */
  lemma ReadIsSlice(f: OpenFile, size: nat, buffer: seq<byte>)
    requires GoodFile(f) && f.offset <= f.size < 0x1_0000_0000 && size <= |buffer|
    ensures var wanted := Wanted(f.size, f.offset, size);
      && wanted == (if size > f.size - f.offset then f.size - f.offset else size)
      && Grow(f.g, ClustersFor(f.offset)) == f.g && Backed(f.g.st.data, f.g.chain)
      && Claimed(|f.g.chain|, f.offset, wanted) == Stored(|f.g.chain|, f.offset, wanted) == wanted
      && Delivered(buffer, Flat(f.g.st.data, f.g.chain), f.offset, wanted)
           == Splice(buffer, 0, Text(f)[f.offset..f.offset + wanted])
  {
    GoodFileParts(f);
    var wanted := Wanted(f.size, f.offset, size);
    var flat := Flat(f.g.st.data, f.g.chain);
    assert wanted <= f.size - f.offset;
    SliceOfPrefix(flat, f.size, f.offset, f.offset + wanted);
  }

  lemma SliceOfPrefix(s: seq<byte>, n: nat, a: nat, b: nat)
    requires a <= b <= n <= |s|
    ensures s[..n][a..b] == s[a..b]
  {
  }

  /**
   * `after` is `before` with the n bytes at the file's position copied to its front: all that were asked for and are
   * there.
   */
  ghost predicate ReadsSlice(f: OpenFile, size: nat, before: seq<byte>, after: seq<byte>, n: nat) {
    && GoodFile(f) && f.offset <= f.size && size <= |before|
    && n == (if size > f.size - f.offset then f.size - f.offset else size)
    && after == Splice(before, 0, Text(f)[f.offset..f.offset + n])
  }

  /** What one call of read for `size` bytes claims, and makes of the caller's buffer, from any position. */
  ghost predicate ReadOutcome(f: OpenFile, size: nat, before: seq<byte>, after: seq<byte>, n: nat) {
    && GoodGrown(f.g) && f.size < 0x1_0000_0000 && size <= |before|
    && var g, wanted := ReadCall(f).g, Wanted(f.size, f.offset, size);
      && n == Claimed(|g.chain|, f.offset, wanted) && Backed(g.st.data, g.chain)
      && after == Delivered(before, Flat(g.st.data, g.chain), f.offset, Stored(|g.chain|, f.offset, wanted))
  }

  /** Within the file that is the slice, and the chain is what it was. */
  lemma ReadIsOutcome(f: OpenFile, size: nat, before: seq<byte>, after: seq<byte>, n: nat)
    requires GoodFile(f) && f.size < 0x1_0000_0000 && size <= |before|
    requires var g, wanted := ReadCall(f).g, Wanted(f.size, f.offset, size);
      && n == Claimed(|g.chain|, f.offset, wanted) && Backed(g.st.data, g.chain)
      && after == Delivered(before, Flat(g.st.data, g.chain), f.offset, Stored(|g.chain|, f.offset, wanted))
    ensures ReadOutcome(f, size, before, after, n)
    ensures f.offset <= f.size ==> ReadCall(f).g == f.g && ReadsSlice(f, size, before, after, n)
  {
    hide Grow, Flat, Delivered, Claimed, Stored, Text;
    if f.offset <= f.size {
      ReadIsSlice(f, size, before);
    }
  }

  /**
   * A position past the end makes the unsigned size wrap around. The read then claims bytes beyond the file, unless
   * none are asked for, or the disk is too full to reach a position on a cluster border.
   */
  lemma {:induction false} ReadStaysInFileExactlyWhen(f: OpenFile, size: nat)
    requires GoodFile(f) && f.size < 0x1_0000_0000 && f.offset < 0x8000_0000 && size < 0x8000_0000
    ensures var n := Claimed(|Grow(f.g, ClustersFor(f.offset)).chain|, f.offset, Wanted(f.size, f.offset, size));
      (n == 0 || f.offset + n <= f.size)
        <==> f.offset <= f.size || size == 0 || (!Reachable(f, f.offset) && f.offset % 512 == 0)
  {
    GrowLength(f.g, ClustersFor(f.offset));
    hide Grow, SlackIsZero, GoodGrown;
    ClaimedBeyond(f.size, |Grow(f.g, ClustersFor(f.offset)).chain|, f.offset, size);
  }

  lemma ClaimedBeyond(fileSize: u32, length: nat, o: nat, size: nat)
    requires fileSize <= 512 * length && o < 0x8000_0000 && size < 0x8000_0000
    ensures var n := Claimed(length, o, Wanted(fileSize, o, size));
      (n == 0 || o + n <= fileSize) <==> (o <= fileSize || size == 0 || (o > 512 * length && o % 512 == 0))
  {
  }

  /**
   * The seek of a read allocates: the volume stays as it was if and only if the chain is long enough or the disk
   * full.
   */
  lemma {:induction false} ReadKeepsVolumeExactlyWhen(f: OpenFile)
    requires GoodGrown(f.g)
    ensures Grow(f.g, ClustersFor(f.offset)).st == f.g.st
      <==> f.offset <= 512 * |f.g.chain| || FirstFree(f.g.st.fat) == 0
  {
    var want := ClustersFor(f.offset);
    if !(want <= |f.g.chain| || FirstFree(f.g.st.fat) == 0) {
      var r := Grow(f.g, want);
      GrowExtends(f.g, want);
      GrowLength(f.g, want);
      GrowLength(Append(f.g), want);
      FirstFreeIsFree(f.g.st.fat);
      ChainIsInUse(r.st.fat, r.chain);
      assert r.st.fat[r.chain[|f.g.chain|]] != 0;
    }
  }

  /** What a write stored, a read of the same range returns. */
  lemma ReadInvertsWrite(f: OpenFile, d: seq<byte>)
    requires GoodFile(f) && Reachable(f, f.offset)
    ensures var (f', n) := WriteCall(f, d);
      GoodFile(f') && f.offset + n <= f'.size && Text(f')[f.offset..f.offset + n] == d[..n]
  {
    hide Grow, Flat, IsPath, Written, GoodFile;
    WriteIsSplice(f, d);
  }

  /** No other chain notices a write: it keeps its links and its bytes, and shares nothing with the grown one. */
  lemma WriteLeavesOthers(f: OpenFile, d: seq<byte>, s: seq<nat>)
    requires GoodGrown(f.g) && IsChain(f.g.st.fat, s) && forall c :: c in s ==> c !in f.g.chain
    ensures var (f', n) := WriteCall(f, d);
      && GoodGrown(f'.g) && IsChain(f'.g.st.fat, s) && (forall c :: c in s ==> c !in f'.g.chain)
      && Backed(f.g.st.data, s) && Backed(f'.g.st.data, s)
      && Flat(f'.g.st.data, s) == Flat(f.g.st.data, s)
  {
    hide Grow, Written;
    WrittenKeeps(f.g, f.offset, d);
    WrittenIsGood(f.g, f.offset, d);
    var r := Written(f.g, f.offset, d);
    ChainIsInUse(f.g.st.fat, s);
    forall i | 0 <= i < |s| ensures r.st.fat[s[i]] == f.g.st.fat[s[i]] && r.st.data[s[i]] == f.g.st.data[s[i]] {
      assert s[i] in s;
    }
    ChainFrame(f.g.st.fat, r.st.fat, s);
    FlatFrame(f.g.st.data, r.st.data, s);
  }

  /** A used cluster outside the chain is not touched; a cluster the chain gained was free. */
  ghost predicate KeepsOthers(g: Grown, r: Grown) {
    && |r.st.fat| == |r.st.data| == |g.st.fat|
    && g.chain <= r.chain
    && (forall c :: 2 <= c < |g.st.fat| && c !in g.chain && g.st.fat[c] != 0 ==>
          c !in r.chain && r.st.fat[c] == g.st.fat[c] && c < |g.st.data| && r.st.data[c] == g.st.data[c])
    && (forall c :: 2 <= c < |g.st.fat| && g.st.fat[c] == 0 && c !in r.chain ==> r.st.fat[c] == 0)
    && (forall i :: |g.chain| <= i < |r.chain| ==> r.chain[i] < |g.st.fat| && g.st.fat[r.chain[i]] == 0)
  }

  lemma GrownKeeps(g: Grown, want: nat)
    requires GoodGrown(g)
    ensures KeepsOthers(g, Grow(g, want))
  {
    hide IsPath, Grow;
    var r := Grow(g, want);
    GrowExtends(g, want);
    forall c | 2 <= c < |g.st.fat| && c !in g.chain && g.st.fat[c] != 0 ensures c !in r.chain {
      if c in r.chain {
        InUseIsOld(g, r, c);
      }
    }
    InRange(r);
  }

  lemma InRange(g: Grown)
    requires GoodGrown(g)
    ensures forall i :: 0 <= i < |g.chain| ==> 2 <= g.chain[i] < |g.st.fat|
  {
  }

  lemma WrittenKeeps(g: Grown, o: nat, d: seq<byte>)
    requires GoodGrown(g)
    ensures KeepsOthers(g, Written(g, o, d))
  {
    hide IsPath, Grow;
    GrownKeeps(g, ClustersFor(o + |d|));
  }

  /** f' is the file f further on: as good, on a chain that extends the old one and leaves all others alone. */
  ghost predicate Continues(f: OpenFile, f': OpenFile) {
    GoodFile(f) && GoodFile(f') && f'.size < 0x1_0000_0000 && KeepsOthers(f.g, f'.g)
  }

  lemma WriteContinues(f: OpenFile, d: seq<byte>)
    requires GoodFile(f) && Reachable(f, f.offset) && WriteCall(f, d).0.size < 0x1_0000_0000
    ensures Continues(f, WriteCall(f, d).0)
  {
    hide Grow, Flat, IsPath, Written, KeepsOthers;
    WriteIsSplice(f, d);
    WrittenKeeps(f.g, f.offset, d);
  }

  /** What one call of read leaves of the file: a chain that reaches the position, if the disk can give it. */
  ghost function ReadCall(f: OpenFile): OpenFile
    requires GoodGrown(f.g)
  {
    OpenFile(Grow(f.g, ClustersFor(f.offset)), f.size, f.offset)
  }

  /** Reading changes no byte of the file, also where its seek claims clusters. */
  lemma ReadContinues(f: OpenFile)
    requires GoodFile(f) && f.size < 0x1_0000_0000
    ensures Continues(f, ReadCall(f)) && Text(ReadCall(f)) == Text(f)
  {
    hide Grow, IsPath, KeepsOthers, Flat;
    GoodFileParts(f);
    GrownKeeps(f.g, ClustersFor(f.offset));
    FlatGrow(f.g, ClustersFor(f.offset));
  }
}
