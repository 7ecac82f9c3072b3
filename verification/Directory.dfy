/** A directory as a list of 32-byte entries: searching it and changing one of its slots. */
module Directory {
  import opened Bytes
  import opened FatTable
  import opened FatCache
  import opened Chains
  import opened FileBytes
  import opened DirEntries
  import opened Names
  import opened Fat32Volume
  import opened Files

  /** The 16 entries of a sector. */
  function Slot(s: Sector, j: nat): Entry
    requires j < 16
  {
    Parse(s[32 * j..32 * j + 32])
  }

  function Slots(s: Sector): (r: seq<Entry>)
    ensures |r| == 16
  {
    seq(16, j requires 0 <= j < 16 => Slot(s, j))
  }

  /** The entries of a directory, cluster after cluster. */
  ghost function Listing(data: seq<Sector>, chain: seq<nat>): (r: seq<Entry>)
    requires Backed(data, chain)
    ensures |r| == 16 * |chain|
  {
    seq(16 * |chain|, k requires 0 <= k < 16 * |chain| => Slot(data[chain[k / 16]], k % 16))
  }

  predicate IsEnd(e: Node) {
    |e.filename| == 11 && e.filename[0] == 0
  }

  predicate IsDeleted(e: Node) {
    |e.filename| == 11 && e.filename[0] == DELETED
  }

  ghost predicate Live(e: Node) {
    !IsEnd(e) && !IsDeleted(e)
  }

  ghost predicate IsHit(e: Node, name: seq<byte>) {
    Live(e) && e.filename == name
  }

  /** How the first byte of a slot, and its first eleven, tell the kinds apart. */
  lemma SlotKinds(e: Entry, name: seq<byte>)
    ensures var r := Render(e);
      && (IsEnd(e) <==> r[0] == 0) && (IsDeleted(e) <==> r[0] == 0xE5)
      && (IsHit(e, name) <==> r[0] != 0 && r[0] != 0xE5 && r[..11] == name)
  {
    EntryLayout(e);
    assert Render(e)[..11][0] == Render(e)[0];
  }

  datatype NodeMatch = MatchDir | MatchEnd | NoMatch | MatchNotDir | MatchDeleted

  function CompareDirectory(e: Entry, name: seq<byte>): (m: NodeMatch)
    ensures m.MatchEnd? <==> IsEnd(e)
    ensures m.MatchDeleted? <==> IsDeleted(e)
    ensures m.MatchDir? || m.MatchNotDir? <==> IsHit(e, name)
    ensures IsHit(e, name) ==> (m.MatchDir? <==> IsDirectory(e))
  {
    if e.filename[0] == 0 then MatchEnd
    else if e.filename[0] == DELETED then MatchDeleted
    else if e.filename != name then NoMatch
    else if IsDirectory(e) then MatchDir
    else MatchNotDir
  }

  /** The linear search: the first slot from `from` on that holds the name or ends the directory. */
  ghost function StopAt(list: seq<Entry>, name: seq<byte>, from: nat): (k: nat)
    requires from <= |list|
    ensures from <= k <= |list|
    decreases |list| - from
  {
    if from == |list| || IsEnd(list[from]) || IsHit(list[from], name) then from else StopAt(list, name, from + 1)
  }

  ghost predicate Finds(list: seq<Entry>, name: seq<byte>) {
    var k := StopAt(list, name, 0);
    k < |list| && IsHit(list[k], name)
  }

  /** The last deleted slot in list[lo..hi], or -1. */
  ghost function LastDeleted(list: seq<Entry>, lo: nat, hi: nat): (k: int)
    requires lo <= hi <= |list|
    ensures k == -1 || lo <= k < hi
    decreases hi
  {
    if lo == hi then -1 else if IsDeleted(list[hi - 1]) then hi - 1 else LastDeleted(list, lo, hi - 1)
  }

  lemma {:induction false} StopAtIsFirst(list: seq<Entry>, name: seq<byte>, from: nat)
    requires from <= |list|
    ensures var k := StopAt(list, name, from);
      && (forall q :: from <= q < k ==> !IsEnd(list[q]) && !IsHit(list[q], name))
      && (k < |list| ==> IsEnd(list[k]) || IsHit(list[k], name))
    decreases |list| - from
  {
    if !(from == |list| || IsEnd(list[from]) || IsHit(list[from], name)) {
      StopAtIsFirst(list, name, from + 1);
    }
  }

  lemma {:induction false} StopAtSkips(list: seq<Entry>, name: seq<byte>, from: nat, till: nat)
    requires from <= till <= |list|
    requires forall q :: from <= q < till ==> !IsEnd(list[q]) && !IsHit(list[q], name)
    ensures StopAt(list, name, from) == StopAt(list, name, till)
    decreases till - from
  {
    if from < till {
      StopAtSkips(list, name, from + 1, till);
    }
  }

  lemma {:induction false} LastDeletedIsLast(list: seq<Entry>, lo: nat, hi: nat)
    requires lo <= hi <= |list|
    ensures var k := LastDeleted(list, lo, hi);
      && (k >= 0 ==> IsDeleted(list[k]))
      && (forall q :: lo <= q < hi && q > k ==> !IsDeleted(list[q]))
    decreases hi
  {
    if lo < hi && !IsDeleted(list[hi - 1]) {
      LastDeletedIsLast(list, lo, hi - 1);
    }
  }

  lemma {:induction false} LastDeletedSplits(list: seq<Entry>, lo: nat, mid: nat, hi: nat)
    requires lo <= mid <= hi <= |list|
    ensures LastDeleted(list, lo, hi)
         == if LastDeleted(list, mid, hi) >= 0 then LastDeleted(list, mid, hi) else LastDeleted(list, lo, mid)
    decreases hi
  {
    if mid < hi && !IsDeleted(list[hi - 1]) {
      LastDeletedSplits(list, lo, mid, hi - 1);
    }
  }

  /** A search of one window of the list is a search of the window's own entries. */
  lemma {:induction false} StopAtWindow(list: seq<Entry>, part: seq<Entry>, base: nat, name: seq<byte>, i: nat)
    requires base + |part| <= |list| && part == list[base..base + |part|] && i <= |part|
    ensures StopAt(part, name, i) < |part| ==> StopAt(list, name, base + i) == base + StopAt(part, name, i)
    ensures StopAt(part, name, i) == |part| ==> StopAt(list, name, base + i) == StopAt(list, name, base + |part|)
    decreases |part| - i
  {
    if i < |part| {
      assert part[i] == list[base + i];
      if !(IsEnd(part[i]) || IsHit(part[i], name)) {
        StopAtWindow(list, part, base, name, i + 1);
      }
    }
  }

  lemma {:induction false} LastDeletedWindow(list: seq<Entry>, part: seq<Entry>, base: nat, i: nat)
    requires base + |part| <= |list| && part == list[base..base + |part|] && i <= |part|
    ensures LastDeleted(list, base, base + i)
         == if LastDeleted(part, 0, i) >= 0 then base + LastDeleted(part, 0, i) else -1
    decreases i
  {
    if i > 0 {
      assert part[i - 1] == list[base + i - 1];
      if !IsDeleted(part[i - 1]) {
        LastDeletedWindow(list, part, base, i - 1);
      }
    }
  }

  lemma ClusterWindow(data: seq<Sector>, chain: seq<nat>, c: nat)
    requires Backed(data, chain) && c < |chain|
    ensures Slots(data[chain[c]]) == Listing(data, chain)[16 * c..16 * c + 16]
  {
    forall j | 0 <= j < 16 ensures Listing(data, chain)[16 * c + j] == Slot(data[chain[c]], j) {
      assert (16 * c + j) / 16 == c && (16 * c + j) % 16 == j;
    }
  }

  /** What the search returns for "no such entry": everything zero. */
  function Nowhere(): NodeInfo {
    NodeInfo(0, 0, Node(seq(11, _ => 0), 0, seq(8, _ => 0), 0, seq(4, _ => 0), 0, 0), 0)
  }

  /** How far the scan of one cluster's 16 entries got. */
  datatype Scan = Scan(i: nat, hit: bool, ended: bool, forCreation: NodeInfo)

  ghost function Remembered(slots: seq<Entry>, i: nat, cluster: u32, start: u32, before: NodeInfo): NodeInfo
    requires |slots| == 16 && i <= 16
  {
    var k := LastDeleted(slots, 0, i);
    if k >= 0 then NodeInfo(cluster, k, slots[k], start) else before
  }

  method ScanCluster(sector: Sector, name: seq<byte>, cluster: u32, start: u32, before: NodeInfo) returns (r: Scan)
    ensures var slots := Slots(sector);
      && r.i == StopAt(slots, name, 0)
      && (r.hit <==> r.i < 16 && IsHit(slots[r.i], name))
      && (r.ended <==> r.i < 16 && IsEnd(slots[r.i]))
      && (r.i < 16 ==> r.hit || r.ended)
      && r.forCreation == Remembered(slots, r.i, cluster, start, before)
  {
    hide Parse, StopAt;
    var forCreation := before;
    ghost var slots := Slots(sector);
    StopAtIsFirst(slots, name, 0);
    var i := 0;
    while i < 16
      invariant i <= StopAt(slots, name, 0)
      invariant forCreation == Remembered(slots, i, cluster, start, before)
    {
      assert Slot(sector, i) == slots[i];
      match CompareDirectory(Slot(sector, i), name) {
        case MatchEnd =>
          return Scan(i, false, true, forCreation);
        case NoMatch =>
        case MatchDir =>
          return Scan(i, true, false, forCreation);
        case MatchNotDir =>
          return Scan(i, true, false, forCreation);
        case MatchDeleted =>
          forCreation := NodeInfo(cluster, i, Slot(sector, i), start);
      }
      i := i + 1;
    }
    return Scan(16, false, false, forCreation);
  }

  ghost function Place(chain: seq<nat>, list: seq<Entry>, k: int, start: u32): NodeInfo
    requires |list| == 16 * |chain| && -1 <= k < |list|
    requires forall i :: 0 <= i < |chain| ==> chain[i] < END_MIN
  {
    if k < 0 then Nowhere() else NodeInfo(chain[k / 16], k % 16, list[k], start)
  }

  /** What scanning cluster c adds to a search that has passed all clusters before it. */
  lemma WindowScan(data: seq<Sector>, chain: seq<nat>, c: nat, name: seq<byte>)
    requires Backed(data, chain) && c < |chain|
    requires var list := Listing(data, chain); StopAt(list, name, 0) == StopAt(list, name, 16 * c)
    ensures var list, slots := Listing(data, chain), Slots(data[chain[c]]);
      var i := StopAt(slots, name, 0);
      if i < 16 then StopAt(list, name, 0) == 16 * c + i && slots[i] == list[16 * c + i]
      else StopAt(list, name, 0) == StopAt(list, name, 16 * c + 16)
  {
    hide StopAt, Parse, Listing, Slots;
    var list, slots := Listing(data, chain), Slots(data[chain[c]]);
    ClusterWindow(data, chain, c);
    StopAtWindow(list, slots, 16 * c, name, 0);
    var i := StopAt(slots, name, 0);
    if i < 16 {
      assert slots[i] == list[16 * c + i];
    }
  }

  lemma WindowRemembers(data: seq<Sector>, chain: seq<nat>, c: nat, i: nat, start: u32)
    requires Backed(data, chain) && c < |chain| && |data| < END_MIN && i <= 16
    ensures var list, slots := Listing(data, chain), Slots(data[chain[c]]);
      Remembered(slots, i, chain[c], start, Place(chain, list, LastDeleted(list, 0, 16 * c), start))
        == Place(chain, list, LastDeleted(list, 0, 16 * c + i), start)
  {
    hide LastDeleted, Parse, Listing, Slots;
    var list, slots := Listing(data, chain), Slots(data[chain[c]]);
    ClusterWindow(data, chain, c);
    LastDeletedWindow(list, slots, 16 * c, i);
    LastDeletedSplits(list, 0, 16 * c, 16 * c + i);
    var k := LastDeleted(slots, 0, i);
    if k >= 0 {
      assert slots[k] == list[16 * c + k];
      assert (16 * c + k) / 16 == c && (16 * c + k) % 16 == k;
    }
  }

  /** The directory being searched: a chain of clusters in a well-shaped store. */
  ghost predicate IsDirectoryChain(st: Store, chain: seq<nat>) {
    Shaped(st) && IsChain(st.fat, chain)
  }

  ghost function EndMarkOf(st: Store, chain: seq<nat>): u32
    requires IsDirectoryChain(st, chain)
  {
    st.fat[chain[|chain| - 1]]
  }

  /**
   * The deleted slot remembered for creation once the search has stopped at k. If nothing stopped it, the last cluster
   * has been scanned a second time, under the end mark's number.
   */
  ghost function Candidate(chain: seq<nat>, list: seq<Entry>, k: nat, mark: u32, start: u32): NodeInfo
    requires 0 < |chain| && |list| == 16 * |chain| && k <= |list|
    requires forall i :: 0 <= i < |chain| ==> chain[i] < END_MIN
  {
    var base := 16 * (|chain| - 1);
    var again := LastDeleted(list, base, |list|);
    if k < |list| then Place(chain, list, LastDeleted(list, 0, k), start)
    else if again >= 0 then NodeInfo(mark, again - base, list[again], start)
    else Place(chain, list, LastDeleted(list, 0, base), start)
  }

  /**
   * Where the search loop ended: in an entry that matches, at the end of the directory, or past a full last cluster.
   */
  datatype Search = Search(found: bool, cluster: u32, i: nat, entry: Entry, forCreation: NodeInfo)

  ghost predicate SearchIsRight(st: Store, chain: seq<nat>, name: seq<byte>, start: u32, r: Search)
    requires IsDirectoryChain(st, chain)
  {
    var list := Listing(st.data, chain);
    var k := StopAt(list, name, 0);
    && (r.found <==> Finds(list, name))
    && (if k < |list| then r.cluster == chain[k / 16] && r.i == k % 16 && r.entry == list[k]
        else r.cluster == EndMarkOf(st, chain) && r.i == 16)
    && (!r.found ==> r.forCreation == Candidate(chain, list, k, EndMarkOf(st, chain), start))
  }

  /** The state of the search before it scans cluster c; c == |chain| is the pass over the stale buffer. */
  ghost predicate Searching(st: Store, chain: seq<nat>, name: seq<byte>, start: u32, c: nat, next: u32,
                            stale: seq<byte>, before: NodeInfo)
    requires IsDirectoryChain(st, chain) && c <= |chain|
  {
    var list := Listing(st.data, chain);
    && StopAt(list, name, 0) == StopAt(list, name, 16 * c)
    && next == (if c < |chain| then chain[c] else EndMarkOf(st, chain))
    && (c > 0 ==> stale == st.data[chain[c - 1]])
    && before == Place(chain, list, LastDeleted(list, 0, 16 * c), start)
  }

  /** Scanning cluster c either settles the search or leaves it before the next cluster. */
  lemma ScanSettles(st: Store, chain: seq<nat>, name: seq<byte>, start: u32, c: nat, stale: seq<byte>,
                    before: NodeInfo, r: Scan)
    requires IsDirectoryChain(st, chain) && c < |chain|
    requires Searching(st, chain, name, start, c, chain[c], stale, before)
    requires var slots := Slots(st.data[chain[c]]);
      && r.i == StopAt(slots, name, 0)
      && (r.hit <==> r.i < 16 && IsHit(slots[r.i], name))
      && (r.ended <==> r.i < 16 && IsEnd(slots[r.i]))
      && r.forCreation == Remembered(slots, r.i, chain[c], start, before)
    ensures r.i <= 16 && (r.i < 16 ==> var e := Slots(st.data[chain[c]])[r.i];
      SearchIsRight(st, chain, name, start, Search(r.hit, chain[c], r.i, e, r.forCreation)))
    ensures r.i == 16 ==> !r.hit && !r.ended
    ensures r.i == 16 ==> Searching(st, chain, name, start, c + 1, st.fat[chain[c]], st.data[chain[c]], r.forCreation)
  {
    hide StopAt, LastDeleted, Listing, Slots, Place, IsHit;
    WindowScan(st.data, chain, c, name);
    WindowRemembers(st.data, chain, c, r.i, start);
    var list := Listing(st.data, chain);
    if r.i < 16 {
      assert (16 * c + r.i) / 16 == c && (16 * c + r.i) % 16 == r.i;
      StopAtIsFirst(list, name, 0);
      EndIsNoHit(list[16 * c + r.i], name);
    } else if c + 1 < |chain| {
      assert st.fat[chain[c]] == chain[c + 1];
    }
  }

  lemma EndIsNoHit(e: Entry, name: seq<byte>)
    ensures IsEnd(e) ==> !IsHit(e, name)
  {
  }

  /** The pass over the stale buffer finds nothing new, but records deleted slots under the end mark's number. */
  lemma StaleScanSettles(st: Store, chain: seq<nat>, name: seq<byte>, start: u32, before: NodeInfo, r: Scan)
    requires IsDirectoryChain(st, chain)
    requires var last := |chain| - 1;
      && Searching(st, chain, name, start, |chain|, EndMarkOf(st, chain), st.data[chain[last]], before)
      && var slots := Slots(st.data[chain[last]]);
        && r.i == StopAt(slots, name, 0)
        && (r.hit <==> r.i < 16 && IsHit(slots[r.i], name))
        && r.forCreation == Remembered(slots, r.i, EndMarkOf(st, chain), start, before)
    ensures r.i == 16 && !r.hit
    ensures forall cluster: u32, e: Entry :: cluster == EndMarkOf(st, chain) ==>
      SearchIsRight(st, chain, name, start, Search(false, cluster, 16, e, r.forCreation))
  {
    hide StopAt, LastDeleted, Listing, Slots, Place, IsHit;
    var list, last := Listing(st.data, chain), |chain| - 1;
    var slots := Slots(st.data[chain[last]]);
    ClusterWindow(st.data, chain, last);
    NoStopInWindow(list, slots, 16 * last, name);
    LastDeletedWindow(list, slots, 16 * last, 16);
    LastDeletedSplits(list, 0, 16 * last, |list|);
    var k := LastDeleted(slots, 0, 16);
    assert k >= 0 ==> slots[k] == list[16 * last + k];
  }

  lemma NoStopInWindow(list: seq<Entry>, part: seq<Entry>, base: nat, name: seq<byte>)
    requires base + |part| == |list| && part == list[base..base + |part|]
    requires StopAt(list, name, 0) == StopAt(list, name, |list|)
    ensures StopAt(list, name, 0) == |list| && StopAt(part, name, 0) == |part|
  {
    StopAtIsFirst(list, name, 0);
    StopAtIsFirst(part, name, 0);
    assert forall k :: 0 <= k < |part| ==> part[k] == list[base + k];
  }

  /** Reads cluster c of the directory into the buffer, or leaves the buffer stale when the chain is over. */
  method ReadForSearch(vol: Volume, buffer: array<byte>, cluster: u32, ghost chain: seq<nat>,
                       ghost c: nat) returns (next: u32)
    requires vol.Valid() && vol.dev.reliable && IsDirectoryChain(vol.store, chain)
    requires buffer.Length == 512 && buffer as object != vol.buffer
    requires c <= |chain| && if c < |chain| then cluster == chain[c] else Closed(cluster)
    modifies vol, vol.dev, vol.buffer, buffer
    ensures vol.Valid() && vol.store == old(vol.store)
    ensures if c < |chain| then buffer[..] == vol.store.data[chain[c]] && next == vol.store.fat[chain[c]]
            else buffer[..] == old(buffer[..]) && next == 0
  {
    hide Sound;
    ghost var stale := buffer[..];
    next := vol.TraverseFat(buffer, 0, cluster, 512, 0, ReadPart, false);
    if c < |chain| {
      WholeSector(stale, vol.store, cluster);
    }
  }

  method SearchDirectory(vol: Volume, name: seq<byte>, start: u32, ghost chain: seq<nat>) returns (r: Search)
    requires vol.Valid() && vol.dev.reliable && IsDirectoryChain(vol.store, chain) && start == chain[0]
    modifies vol, vol.dev, vol.buffer
    ensures vol.Valid() && vol.store == old(vol.store)
    ensures SearchIsRight(vol.store, chain, name, start, r)
  {
    hide Sound, SearchIsRight, Searching, StopAt, Parse, IsPath, Shaped, Remembered;
    var buffer := new byte[512];
    var cluster, next := start, start;
    var forCreation := Nowhere();
    ghost var c, st := 0, vol.store;
    SearchStarts(st, chain, name, start, buffer[..]);
    while next != 0
      invariant vol.Valid() && vol.store == st && buffer.Length == 512 && fresh(buffer)
      invariant c <= |chain| + 1
      invariant c <= |chain| ==> Searching(st, chain, name, start, c, next, buffer[..], forCreation)
      invariant c > |chain| ==> next == 0
      invariant c > |chain| ==>
        SearchIsRight(st, chain, name, start, Search(false, cluster, 16, Nowhere().node, forCreation))
      decreases |chain| + 1 - c
    {
      cluster := next;
      NextIsInRange(st, chain, name, start, c, next, buffer[..], forCreation);
      ghost var stale := buffer[..];
      next := ReadForSearch(vol, buffer, cluster, chain, c);
      var sector: Sector := buffer[..];
      var scan := ScanCluster(sector, name, cluster, start, forCreation);
      if c < |chain| {
        ScanSettles(st, chain, name, start, c, stale, forCreation, scan);
      } else {
        StaleScanSettles(st, chain, name, start, forCreation, scan);
      }
      if scan.hit || scan.ended {
        return Search(scan.hit, cluster, scan.i, Slot(sector, scan.i), scan.forCreation);
      }
      forCreation := scan.forCreation;
      c := c + 1;
    }
    if c <= |chain| {
      NextIsInRange(st, chain, name, start, c, next, buffer[..], forCreation);
    }
    r := Search(false, cluster, 16, Nowhere().node, forCreation);
  }

  lemma SearchStarts(st: Store, chain: seq<nat>, name: seq<byte>, start: u32, buffer: seq<byte>)
    requires IsDirectoryChain(st, chain) && start == chain[0]
    ensures Searching(st, chain, name, start, 0, start, buffer, Nowhere()) && start != 0
  {
  }

  lemma NextIsInRange(st: Store, chain: seq<nat>, name: seq<byte>, start: u32, c: nat, next: u32, stale: seq<byte>,
                      before: NodeInfo)
    requires IsDirectoryChain(st, chain) && c <= |chain| && Searching(st, chain, name, start, c, next, stale, before)
    ensures if c < |chain| then 2 <= next < |st.fat| && next == chain[c] && !Closed(next)
            else Closed(next) && next == EndMarkOf(st, chain) && |stale| == 512
    ensures 0 < |chain| && (c > 0 ==> stale == st.data[chain[c - 1]])
  {
  }

  lemma WholeSector(stale: seq<byte>, st: Store, cluster: u32)
    requires |stale| == 512 && cluster < |st.data|
    ensures Splice(stale, 0, st.data[cluster][0..512]) == st.data[cluster]
  {
  }

  /**
   * The cluster whose slot creation uses: the remembered one, the end slot's, or past a full last cluster whatever the
   * allocator yields, which is the least free cluster or 0.
   */
  ghost function PickedCluster(st: Store, r: Search): nat {
    if r.forCreation.descriptorCluster != 0 then r.forCreation.descriptorCluster
    else if r.i == 16 then FirstFree(st.fat)
    else r.cluster
  }

  /** An end slot was seen, or a deleted slot outside the last cluster and none inside it. */
  ghost predicate CreationSafe(list: seq<Entry>, name: seq<byte>)
    requires 16 <= |list|
  {
    || StopAt(list, name, 0) < |list|
    || (LastDeleted(list, |list| - 16, |list|) == -1 && LastDeleted(list, 0, |list| - 16) >= 0)
  }

  /** The directory is full, none of its slots is deleted, and no cluster is free: creation is refused. */
  ghost predicate CreationRefused(st: Store, list: seq<Entry>, name: seq<byte>) {
    StopAt(list, name, 0) == |list| && LastDeleted(list, 0, |list|) == -1 && FirstFree(st.fat) == 0
  }

  /**
   * When the last cluster is full the search goes on under the end mark's number, and creation may follow it there, or
   * take a cluster that is never linked to the directory. The cluster picked belongs to the directory if and only if
   * CreationSafe holds, and none is picked if and only if CreationRefused does.
   */
  lemma CreationStaysInsideExactlyWhenSafe(st: Store, chain: seq<nat>, name: seq<byte>, start: u32, r: Search)
    requires IsDirectoryChain(st, chain) && SearchIsRight(st, chain, name, start, r) && !r.found
    ensures 16 <= |Listing(st.data, chain)|
    ensures PickedCluster(st, r) in chain <==> CreationSafe(Listing(st.data, chain), name)
    ensures PickedCluster(st, r) == 0 <==> CreationRefused(st, Listing(st.data, chain), name)
  {
    hide StopAt, LastDeleted, Listing;
    var list := Listing(st.data, chain);
    ChainIsInUse(st.fat, chain);
    FirstFreeIsFree(st.fat);
    LastDeletedSplits(list, 0, |list| - 16, |list|);
    assert forall q :: 0 <= q < |list| ==> chain[q / 16] in chain && chain[q / 16] != 0;
  }

  /** A directory of live entries only has no room for another name. */
  lemma FullDirectoryIsNotSafe(list: seq<Entry>, name: seq<byte>)
    requires 16 <= |list| && forall k :: 0 <= k < |list| ==> Live(list[k]) && list[k].filename != name
    ensures !Finds(list, name) && !CreationSafe(list, name)
  {
    StopAtIsFirst(list, name, 0);
    LastDeletedIsLast(list, 0, |list| - 16);
    hide StopAt, LastDeleted;
  }

  /** Sixteen files "A" to "P", each with a cluster of its own. */
  function SixteenFiles(): (r: seq<Entry>)
    ensures |r| == 16
  {
    seq(16, k requires 0 <= k < 16 => FileEntry(k))
  }

  function FileEntry(k: nat): Entry
    requires k < 16
  {
    Node([0x41 + k] + seq(10, _ => SPACE), 0, seq(8, _ => 0), 0, seq(4, _ => 0), 3 + k, 0)
  }

  /** They fill the one cluster of the root directory, and clusters 19 and up are free. */
  ghost function FullRootVolume(): (st: Store)
    ensures |st.fat| == |st.data| == 128
    ensures forall c :: 0 <= c < 128 ==> st.fat[c] == if 2 <= c < 19 then END_MARK else 0
  {
    Store(seq(128, c => if 2 <= c < 19 then END_MARK else 0), seq(128, _ => ZeroSector())[2 := SixteenFilesSector()])
  }

  function SixteenFilesSector(): Sector {
    seq(512, p requires 0 <= p < 512 => Render(SixteenFiles()[p / 32])[p % 32])
  }

  lemma FullRootListing()
    ensures IsDirectoryChain(FullRootVolume(), [2])
    ensures Listing(FullRootVolume().data, [2]) == SixteenFiles()
  {
    var st, files, s := FullRootVolume(), SixteenFiles(), SixteenFilesSector();
    hide Render, Parse, FileEntry, SixteenFiles;
    forall k | 0 <= k < 16 ensures Slot(s, k) == files[k] {
      forall p | 0 <= p < 32 ensures s[32 * k..32 * k + 32][p] == Render(files[k])[p] {
        assert (32 * k + p) / 32 == k && (32 * k + p) % 32 == p;
      }
      assert s[32 * k..32 * k + 32] == Render(files[k]);
      ParseRender(files[k]);
    }
    assert st.data[2] == s;
    assert forall q :: 0 <= q < 16 ==> Listing(st.data, [2])[q] == Slot(s, q);
  }

  lemma SixteenFilesAreLive()
    ensures forall k :: 0 <= k < 16 ==> Live(SixteenFiles()[k]) && SixteenFiles()[k].filename != Name83([0x51])
  {
    assert Name83([0x51])[0] == 0x51;
    hide Name83;
    assert forall k :: 0 <= k < 16 ==> SixteenFiles()[k].filename[0] == 0x41 + k;
  }

  /** Creating a seventeenth picks cluster 19, which is free and in no chain: the directory does not get it. */
  lemma {:induction false} SeventeenthFileIsNotSafe(r: Search)
    requires IsDirectoryChain(FullRootVolume(), [2]) && SearchIsRight(FullRootVolume(), [2], Name83([0x51]), 2, r)
    ensures Listing(FullRootVolume().data, [2]) == SixteenFiles()
    ensures !r.found && !CreationSafe(SixteenFiles(), Name83([0x51]))
    ensures PickedCluster(FullRootVolume(), r) == FirstFree(FullRootVolume().fat) == 19
  {
    hide Name83, FullRootVolume, Listing, FirstFreeFrom, StopAt, LastDeleted, SixteenFiles, Shaped, IsChain, Live;
    var st, list, name := FullRootVolume(), SixteenFiles(), Name83([0x51]);
    FullRootListing();
    SixteenFilesAreLive();
    FullDirectoryIsNotSafe(list, name);
    FirstFreeFromIsLeast(st.fat, 2);
    assert st.fat[19] == 0 && st.fat[FirstFree(st.fat)] != END_MARK;
    NothingIsPicked(list, name);
    LastDeletedSplits(list, 0, 0, 16);
  }

  lemma NothingIsPicked(list: seq<Entry>, name: seq<byte>)
    requires forall k :: 0 <= k < |list| ==> Live(list[k]) && list[k].filename != name
    ensures StopAt(list, name, 0) == |list| && LastDeleted(list, 0, |list|) == -1
  {
    StopAtIsFirst(list, name, 0);
    LastDeletedIsLast(list, 0, |list|);
    hide StopAt, LastDeleted;
  }

  /** The slot a creation uses: the last deleted slot before the search stopped, or else the end slot. */
  ghost function CreationSlot(list: seq<Entry>, name: seq<byte>): (k: nat)
    requires 16 <= |list| && CreationSafe(list, name)
    ensures k < |list|
  {
    var stop := StopAt(list, name, 0);
    var deleted := LastDeleted(list, 0, stop);
    LastDeletedSplits(list, 0, |list| - 16, |list|);
    if deleted >= 0 then deleted else stop
  }

  /** That is the last deleted slot before the search stopped, or, if none is, the first end slot. */
  lemma CreationSlotIsLastDeletedOrEnd(list: seq<Entry>, name: seq<byte>)
    requires 16 <= |list| && CreationSafe(list, name) && !Finds(list, name)
    ensures var k := CreationSlot(list, name);
      && (forall q :: 0 <= q < k ==> !IsEnd(list[q]) && !IsHit(list[q], name))
      && (IsDeleted(list[k]) || (IsEnd(list[k]) && forall q :: 0 <= q < k ==> !IsDeleted(list[q])))
      && forall q :: k < q < |list| && IsDeleted(list[q]) ==> exists p :: k <= p < q && IsEnd(list[p])
  {
    var k, stop := CreationSlot(list, name), StopAt(list, name, 0);
    StopAtIsFirst(list, name, 0);
    LastDeletedIsLast(list, 0, stop);
    LastDeletedSplits(list, 0, |list| - 16, |list|);
    hide StopAt, LastDeleted;
    if stop < |list| {
      assert IsEnd(list[stop]) && k <= stop;
    }
  }

  function MarkedDeleted(e: Entry): Entry {
    e.(filename := e.filename[0 := DELETED])
  }

  lemma DeletedBytes(e: Entry)
    ensures Render(MarkedDeleted(e)) == Render(e)[0 := 0xE5]
  {
  }

  /** Entry k of a directory is read from 32 bytes of one of its clusters, and spells them. */
  lemma EntryBytes(data: seq<Sector>, chain: seq<nat>, k: nat)
    requires Backed(data, chain) && k < 16 * |chain|
    ensures var at := 32 * (k % 16);
      Render(Listing(data, chain)[k]) == data[chain[k / 16]][at..at + 32]
  {
    var s, j := data[chain[k / 16]], k % 16;
    assert Listing(data, chain)[k] == Slot(s, j);
    RenderParse(s[32 * j..32 * j + 32]);
  }

  /** Looking a name up is a linear search; creating settles on a slot of this directory. Neither changes the store. */
  method FindNode(vol: Volume, filename: seq<byte>, start: u32, creating: bool,
                  ghost chain: seq<nat>) returns (info: NodeInfo)
    requires vol.Valid() && vol.dev.reliable && IsDirectoryChain(vol.store, chain) && start == chain[0]
    requires |filename| > 0
    requires 16 <= |Listing(vol.store.data, chain)|
    requires creating ==> var list, name := Listing(vol.store.data, chain), Name83(filename);
      Finds(list, name) || CreationSafe(list, name) || CreationRefused(vol.store, list, name)
    modifies vol, vol.dev, vol.buffer
    ensures vol.Valid() && vol.store == old(vol.store)
    ensures var list, name := Listing(vol.store.data, chain), Name83(filename);
      if Finds(list, name) then info == Place(chain, list, StopAt(list, name, 0), start)
      else if !creating || CreationRefused(vol.store, list, name) then info == Nowhere()
      else var k := CreationSlot(list, name);
        info == Place(chain, list, k, start).(node := MarkedDeleted(list[k]))
  {
    hide Sound, Listing, StopAt, IsPath, Shaped, Name83, LastDeleted;
    var name := new byte[11];
    Make8Point3Name(filename, name);
    var name83 := name[..];
    var r := SearchDirectory(vol, name83, start, chain);
    if r.found {
      return NodeInfo(r.cluster, r.i, r.entry, start);
    }
    if !creating {
      return Nowhere();
    }
    CreationUsesSlot(vol.store, chain, name83, start, r);
    if r.forCreation.descriptorCluster != 0 {
      return r.forCreation;
    }
    var cluster, i := r.cluster, r.i;
    if i == 16 {
      cluster := vol.AllocateCluster(cluster);
      i := 0;
      if cluster == 0 {
        return Nowhere();
      }
    }
    info := NodeInfo(cluster, i, MarkedDeleted(r.entry), start);
  }

  lemma CreationUsesSlot(st: Store, chain: seq<nat>, name: seq<byte>, start: u32, r: Search)
    requires IsDirectoryChain(st, chain) && SearchIsRight(st, chain, name, start, r) && !r.found
    requires var list := Listing(st.data, chain);
      16 <= |list| && (CreationSafe(list, name) || CreationRefused(st, list, name))
    ensures var list := Listing(st.data, chain);
      if CreationRefused(st, list, name) then r.forCreation.descriptorCluster == 0 && r.i == 16
      else
        var k := CreationSlot(list, name);
        && (if r.forCreation.descriptorCluster != 0 then r.forCreation == Place(chain, list, k, start)
            else r.i < 16 && NodeInfo(r.cluster, r.i, r.entry, start) == Place(chain, list, k, start))
        && (r.forCreation.descriptorCluster != 0 ==> MarkedDeleted(list[k]) == list[k])
  {
    hide StopAt, Listing, LastDeleted;
    var list := Listing(st.data, chain);
    var stop := StopAt(list, name, 0);
    LastDeletedSplits(list, 0, |list| - 16, |list|);
    LastDeletedIsLast(list, 0, stop);
    assert forall q :: 0 <= q < |list| ==> chain[q / 16] != 0;
    if !CreationRefused(st, list, name) {
      var k := CreationSlot(list, name);
      if IsDeleted(list[k]) {
        assert MarkedDeleted(list[k]).filename == list[k].filename;
      }
    }
  }

  lemma SlotOfSplice(s: Sector, j: nat, e: Entry, i: nat)
    requires i < 16 && j < 16
    ensures Slot(Splice(s, 32 * j, Render(e)), i) == if i == j then e else Slot(s, i)
  {
    hide Parse, Render;
    var s' := Splice(s, 32 * j, Render(e));
    if i == j {
      assert s'[32 * j..32 * j + 32] == Render(e);
      ParseRender(e);
    } else {
      assert i < j ==> 32 * i + 32 <= 32 * j;
      assert i > j ==> 32 * i >= 32 * j + 32;
      assert s'[32 * i..32 * i + 32] == s[32 * i..32 * i + 32];
    }
  }

  /** Rewriting one entry of a directory changes that slot of its listing and nothing else. */
  lemma ListingEdited(data: seq<Sector>, chain: seq<nat>, k: nat, e: Entry)
    requires Backed(data, chain) && Distinct(chain) && k < 16 * |chain|
    ensures var c := chain[k / 16];
      Listing(data[c := Splice(data[c], 32 * (k % 16), Render(e))], chain) == Listing(data, chain)[k := e]
  {
    hide Slot, Render;
    var c := chain[k / 16];
    var data' := data[c := Splice(data[c], 32 * (k % 16), Render(e))];
    forall q | 0 <= q < 16 * |chain| ensures Listing(data', chain)[q] == Listing(data, chain)[k := e][q] {
      if q / 16 == k / 16 {
        SlotOfSplice(data[c], k % 16, e, q % 16);
      }
    }
  }

  lemma ListingFrame(data: seq<Sector>, data': seq<Sector>, chain: seq<nat>)
    requires Backed(data, chain) && Backed(data', chain)
    requires forall i :: 0 <= i < |chain| ==> data'[chain[i]] == data[chain[i]]
    ensures Listing(data', chain) == Listing(data, chain)
  {
    hide Slot;
  }
}
