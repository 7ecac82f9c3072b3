/** What each operation leaves in the clusters of the volume, byte by byte. */
module OnDisk {
  import opened Bytes
  import opened FatTable
  import opened Chains
  import opened FileBytes
  import opened DirEntries
  import opened Directory
  import opened Files
  import opened FileLaws
  import opened Catalogs
  import opened Transitions
  import opened Runs

  /** The 32 bytes of slot k of directory d. */
  ghost function SlotBytes(s: State, d: nat, k: nat): seq<byte>
    requires IsSlot(s.st, s.t, d, k)
  {
    s.st.data[SlotCluster(s.t, d, k)][32 * (k % 16)..32 * (k % 16) + 32]
  }

  /** They spell the entry the listing shows there. */
  lemma SlotBytesSpellEntry(s: State, d: nat, k: nat)
    requires IsSlot(s.st, s.t, d, k)
    ensures k < |Entries(s.st, s.t, d)| && SlotBytes(s, d, k) == Render(Entries(s.st, s.t, d)[k])
  {
    EntryBytes(s.st.data, s.t.chains[d], k);
  }

  /** Everything but slot k of directory d is the same, except for cluster f. */
  ghost predicate SameButSlot(s: State, s': State, d: nat, k: nat, f: nat)
    requires IsSlot(s.st, s.t, d, k)
  {
    var c, at := SlotCluster(s.t, d, k), 32 * (k % 16);
    && |s'.st.data| == |s.st.data|
    && (forall q :: 0 <= q < |s.st.data| && q != c && q != f ==> s'.st.data[q] == s.st.data[q])
    && (forall p :: 0 <= p < 512 && !(at <= p < at + 32) ==> s'.st.data[c][p] == s.st.data[c][p])
  }

  /** What creation makes of the clusters: the fresh one, the one with the slot, and no other. */
  lemma CreatedStoreEffect(st: Store, info: NodeInfo, isDir: bool)
    requires Shaped(st) && FirstFree(st.fat) != 0 && info.descriptorCluster < |st.data| && info.descriptorOffset < 16
    requires info.descriptorCluster as nat != FirstFree(st.fat)
    ensures var st', f, c := CreatedStore(st, info, isDir), FirstFree(st.fat), info.descriptorCluster as nat;
      && st'.fat == st.fat[f := 0xFFF_FFFF] && |st'.data| == |st.data|
      && st'.data[c] == Splice(st.data[c], 32 * info.descriptorOffset, Render(info.node))
      && st'.data[f] == (if isDir then DotSector(f, info.parentCluster) else ZeroSector())
      && forall q :: 0 <= q < |st.data| && q != c && q != f ==> st'.data[q] == st.data[q]
  {
    hide Splice, Render, DotSector, FirstFreeFrom;
    ClaimStarts(st);
  }

  /** Creating writes one slot, one link and the fresh cluster; here is the slot. */
  lemma CreatedSlotBytes(root: nat, s: State, d: nat, name: seq<byte>, isDir: bool, s': State)
    requires WellFormed(s.st, root, s.t) && Step(root, s, Create(d, name, isDir), s')
    requires !Finds(Entries(s.st, s.t, d), name) && FirstFree(s.st.fat) != 0
    ensures var list, f := Entries(s.st, s.t, d), FirstFree(s.st.fat);
      && 16 <= |list| && CreationSafe(list, name)
      && var k := CreationSlot(list, name);
        && IsSlot(s.st, s.t, d, k) && IsSlot(s'.st, s'.t, d, k) && SameButSlot(s, s', d, k, f)
        && FreshSlot(SlotBytes(s', d, k), SlotBytes(s, d, k), name, f, isDir)
  {
    hide WellFormed, Shaped, Entries, StopAt, IsDirectory, StartOf, CreationSafe, CreationSlot, CreatedStore, Render,
         NewEntry, FreshSlot, FirstFreeFrom, SlotBytes;
    var list, f := Entries(s.st, s.t, d), FirstFree(s.st.fat);
    var k := CreationSlot(list, name);
    CreatedSits(root, s, d, name, isDir, s');
    FreshIsElsewhere(root, s, d, k);
    CreatedStoreEffect(s.st, CreatedInfo(s.st, s.t, d, k, name, isDir), isDir);
    NewEntryIsFresh(list[k], name, f, isDir);
    SlotBytesSpellEntry(s, d, k);
    SlotBytesSpellEntry(s', d, k);
  }

  /** Here are the link and the fresh cluster: an end mark, and zeros but for the dot entries of a directory. */
  lemma CreatedClusterBytes(root: nat, s: State, d: nat, name: seq<byte>, isDir: bool, s': State)
    requires WellFormed(s.st, root, s.t) && Step(root, s, Create(d, name, isDir), s')
    requires !Finds(Entries(s.st, s.t, d), name) && FirstFree(s.st.fat) != 0
    ensures var f := FirstFree(s.st.fat);
      && f < |s'.st.data| && s'.st.fat == s.st.fat[f := 0xFFF_FFFF]
      && (forall p :: (if isDir then 64 else 0) <= p < 512 ==> s'.st.data[f][p] == 0)
      && (isDir ==> DotSlot(s'.st.data[f][..32], [0x2E] + seq(10, _ => 0x20), f)
                    && DotSlot(s'.st.data[f][32..64], [0x2E, 0x2E] + seq(9, _ => 0x20), d))
  {
    hide WellFormed, Shaped, Entries, StopAt, IsDirectory, StartOf, CreationSafe, CreationSlot, CreatedStore, DotSector,
         NewEntry, DotSlot, FirstFreeFrom;
    var f, k := FirstFree(s.st.fat), CreationSlot(Entries(s.st, s.t, d), name);
    CreatedSits(root, s, d, name, isDir, s');
    FreshIsElsewhere(root, s, d, k);
    CreatedStoreEffect(s.st, CreatedInfo(s.st, s.t, d, k, name, isDir), isDir);
    if isDir {
      DotSectorBytes(f, d);
    }
  }

  lemma FreshIsElsewhere(root: nat, s: State, d: nat, k: nat)
    requires WellFormed(s.st, root, s.t) && IsSlot(s.st, s.t, d, k) && FirstFree(s.st.fat) != 0
    ensures Shaped(s.st) && SlotCluster(s.t, d, k) != FirstFree(s.st.fat) < |s.st.fat|
  {
    hide OwnersExist, DirectoryOk, FilesOk, Entries, FirstFreeFrom;
    FreshIsNowhere(s.st, s.t);
    SlotInRange(s.st, s.t, d, k);
    SlotFacts(s.st, s.t, d, k);
  }

  /** Removing a file writes one byte of one slot; the rest is links, and those RemovedIsGone tells. */
  lemma RemovedBytes(root: nat, s: State, d: nat, name: seq<byte>, s': State)
    requires WellFormed(s.st, root, s.t) && Step(root, s, Remove(d, name), s')
    requires var list := Entries(s.st, s.t, d); Finds(list, name) && !IsDirectory(list[StopAt(list, name, 0)])
    ensures var k := StopAt(Entries(s.st, s.t, d), name, 0);
      && IsSlot(s.st, s.t, d, k)
      && var c := SlotCluster(s.t, d, k);
        s'.st.data == s.st.data[c := s.st.data[c][32 * (k % 16) := 0xE5]]
  {
    hide WellFormed, Shaped, Entries, StopAt, IsDirectory, StartOf, Render, Release, MarkedDeleted;
    var list := Entries(s.st, s.t, d);
    var k := StopAt(list, name, 0);
    SlotInRange(s.st, s.t, d, k);
    SlotBytesSpellEntry(s, d, k);
    DeletedBytes(list[k]);
    OneByteSplice(s.st.data[SlotCluster(s.t, d, k)], 32 * (k % 16), Render(list[k]), 0xE5);
  }

  lemma OneByteSplice(s: Sector, at: nat, r: seq<byte>, b: byte)
    requires |r| == 32 && at + 32 <= 512 && s[at..at + 32] == r
    ensures Splice(s, at, r[0 := b]) == s[at := b]
  {
    assert forall p :: at <= p < at + 32 ==> s[p] == r[p - at];
  }

  /** The slot's bytes are what they were but for the last four, which spell the size of its entry now. */
  ghost predicate OnlyResized(s: State, s': State, d: nat, k: nat)
    requires IsSlot(s.st, s.t, d, k) && IsSlot(s'.st, s'.t, d, k) && k < |Entries(s'.st, s'.t, d)|
  {
    var was, r := SlotBytes(s, d, k), SlotBytes(s', d, k);
    && r[..28] == was[..28]
    && Entries(s'.st, s'.t, d)[k].size
      == r[28] as int + 0x100 * r[29] as int + 0x1_0000 * r[30] as int + 0x100_0000 * r[31] as int
  }

  /** Writing to a file leaves all of its slot but the last four bytes, which are its size. */
  lemma WrittenSlotBytes(root: nat, s: State, d: nat, name: seq<byte>, o: nat, bytes: seq<byte>, s': State)
    requires WellFormed(s.st, root, s.t) && Step(root, s, Write(d, name, o, bytes), s')
    ensures var k := StopAt(Entries(s.st, s.t, d), name, 0);
      && IsSlot(s.st, s.t, d, k) && IsSlot(s'.st, s'.t, d, k) && k < |Entries(s'.st, s'.t, d)|
      && OnlyResized(s, s', d, k)
  {
    hide WellFormed, Step, Entries, StopAt, Render, IsSlot, SlotBytes, StartOf;
    var k := StopAt(Entries(s.st, s.t, d), name, 0);
    WrittenSlotStays(root, s, d, name, o, bytes, s');
    SlotBytesSpellEntry(s, d, k);
    SlotBytesSpellEntry(s', d, k);
    EntryLayout(Entries(s'.st, s'.t, d)[k]);
  }

  lemma WrittenSlotStays(root: nat, s: State, d: nat, name: seq<byte>, o: nat, bytes: seq<byte>, s': State)
    requires WellFormed(s.st, root, s.t) && Step(root, s, Write(d, name, o, bytes), s')
    ensures var list, list' := Entries(s.st, s.t, d), Entries(s'.st, s'.t, d);
      var k := StopAt(list, name, 0);
      && IsSlot(s.st, s.t, d, k) && IsSlot(s'.st, s'.t, d, k) && k < |list| && k < |list'|
      && Render(list'[k])[..28] == Render(list[k])[..28]
  {
    hide WellFormed, Step, Entries, StopAt, Render, OthersLookUpTheSame, HoldsWritten, Finds, IsSlot, SlotBytes, IsHit,
         HoldsFile, FileTransition, GoodGrown, StartOf, After;
    var op, list, list' := Write(d, name, o, bytes), Entries(s.st, s.t, d), Entries(s'.st, s'.t, d);
    var k := StopAt(list, name, 0);
    FileOpIsTransition(root, s, op, s');
    WrittenIsFound(root, s, d, name, o, bytes, s');
    FoundIsHit(list', name);
    WrittenKeepsSlot(s, s', list[k], list'[k], o, bytes);
    StepKeepsWellFormed(root, s, op, s');
    StepIsInDirectory(root, s, op, s');
    DirectoriesOnlyGrow(root, s, op, s');
    DirectorySlot(root, s', d, k);
  }

  lemma WrittenKeepsSlot(s: State, s': State, e: Entry, e': Entry, o: nat, bytes: seq<byte>)
    requires HoldsWritten(s, s', e, e', o, bytes)
    ensures Render(e')[..28] == Render(e)[..28]
  {
  }
}
