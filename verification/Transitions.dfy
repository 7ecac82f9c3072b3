/** What creating, removing and writing do to the volume and its catalog, and that each keeps it well formed. */
module Transitions {
  import opened Bytes
  import opened FatTable
  import opened Chains
  import opened FileBytes
  import opened DirEntries
  import opened Names
  import opened Directory
  import opened Files
  import opened FileLaws
  import opened Catalogs

  ghost function SlotCluster(t: Catalog, d: nat, k: nat): nat
    requires d in t.chains && k / 16 < |t.chains[d]|
  {
    t.chains[d][k / 16]
  }

  /** Slot k of directory d, and the cluster it lies in. */
  ghost predicate IsSlot(st: Store, t: Catalog, d: nat, k: nat) {
    && d in t.dirs && d in t.chains && d < END_MIN
    && k < |Entries(st, t, d)| && k / 16 < |t.chains[d]|
    && 2 <= SlotCluster(t, d, k) < |st.fat| == |st.data| < END_MIN
  }

  /** Outside the chain that starts at `h`, only slot (d, k) of the data changes, and it becomes `e`. */
  ghost predicate EditsOneSlot(st: Store, st': Store, t: Catalog, d: nat, k: nat, e: Entry, h: nat)
    requires IsSlot(st, t, d, k)
  {
    && |st'.data| == |st.data| && d != h
    && forall c :: c in t.home && c < |st.data| && t.home[c] != h ==>
         st'.data[c] == if c == SlotCluster(t, d, k) then Splice(st.data[c], 32 * (k % 16), Render(e)) else st.data[c]
  }

  lemma SlotFacts(st: Store, t: Catalog, d: nat, k: nat)
    requires Shaped(st) && ChainsTile(st, t) && d in t.dirs && d in t.chains && k < |Entries(st, t, d)|
    ensures IsSlot(st, t, d, k) && |Entries(st, t, d)| == 16 * |t.chains[d]|
    ensures st.fat[SlotCluster(t, d, k)] != 0 && SlotCluster(t, d, k) in t.home && t.home[SlotCluster(t, d, k)] == d
  {
    hide ChainsTile, IsChain, Listing;
    ChainFacts(st, t, d);
    assert t.chains[d][0] < |st.fat|;
  }

  /** The listings after such an edit: one entry of one directory is new. */
  lemma EntriesAfterEdit(st: Store, st': Store, t: Catalog, t': Catalog, d: nat, k: nat, e: Entry, h: nat, x: nat)
    requires Shaped(st) && ChainsTile(st, t) && IsSlot(st, t, d, k)
    requires EditsOneSlot(st, st', t, d, k, e, h)
    requires x in t.chains && x in t'.chains && t'.chains[x] == t.chains[x] && x != h
    ensures Entries(st', t', x) == if x == d then Entries(st, t, d)[k := e] else Entries(st, t, x)
  {
    hide Splice, Render, IsChain, Listing, ChainsTile;
    var s: seq<nat> := t.chains[x];
    ChainFacts(st, t, x);
    SlotFacts(st, t, d, k);
    if x == d {
      var c := SlotCluster(t, d, k);
      ListingEdited(st.data, s, k, e);
      ListingFrame(st.data[c := Splice(st.data[c], 32 * (k % 16), Render(e))], st'.data, s);
    } else {
      ListingFrame(st.data, st'.data, s);
    }
  }

  /** A file whose chain is not the one touched keeps its contents. */
  lemma FileAfterEdit(st: Store, st': Store, t: Catalog, t': Catalog, d: nat, k: nat, e: Entry, h: nat, file: Entry)
    requires Shaped(st) && ChainsTile(st, t) && IsSlot(st, t, d, k)
    requires EditsOneSlot(st, st', t, d, k, e, h)
    requires Shaped(st') && ChainsTile(st', t')
    requires var x := StartOf(file); x in t.chains && x in t'.chains && t'.chains[x] == t.chains[x] && x != h && x != d
    requires GoodFile(FileOf(st, t, file, 0))
    ensures GoodFile(FileOf(st', t', file, 0)) && Text(FileOf(st', t', file, 0)) == Text(FileOf(st, t, file, 0))
  {
    hide Splice, Render, IsChain, Flat, ChainsTile;
    var x := StartOf(file);
    ChainFacts(st, t, x);
    ChainFacts(st', t', x);
    SlotFacts(st, t, d, k);
    var s: seq<nat> := t.chains[x];
    FlatFrame(st.data, st'.data, s);
  }

  // ---- Editing a directory's list ----

  lemma TidyAfterEdit(list: seq<Entry>, k: nat, e: Entry)
    requires Tidy(list) && k < |list| && !IsEnd(e)
    requires IsEnd(list[k]) ==> forall j :: 0 <= j < k ==> !IsEnd(list[j])
    ensures Tidy(list[k := e])
  {
  }

  lemma UniqueAfterEdit(list: seq<Entry>, k: nat, e: Entry)
    requires UniqueNames(list) && k < |list|
    requires Live(e) ==> forall j :: 0 <= j < |list| && j != k && Live(list[j]) ==> list[j].filename != e.filename
    ensures UniqueNames(list[k := e])
  {
  }

  /** A slot free for creation: deleted, or the end slot with none before it. */
  ghost predicate IsFreeSlot(list: seq<Entry>, k: nat) {
    k < |list| && (IsDeleted(list[k]) || (IsEnd(list[k]) && forall j :: 0 <= j < k ==> !IsEnd(list[j])))
  }

  lemma CreationSlotIsFree(list: seq<Entry>, name: seq<byte>)
    requires 16 <= |list| && CreationSafe(list, name) && !Finds(list, name)
    ensures IsFreeSlot(list, CreationSlot(list, name))
  {
    StopAtIsFirst(list, name, 0);
    LastDeletedIsLast(list, 0, StopAt(list, name, 0));
    LastDeletedSplits(list, 0, |list| - 16, |list|);
  }

  // ---- Creating ----

  function DotEntry(name: seq<byte>, start: u32): (e: Entry)
    requires |name| == 11
    ensures e.filename == name && StartOf(e) == start && IsDirectory(e)
  {
    Node(name, DIRECTORY, seq(8, _ => 0), start / 0x1_0000, seq(4, _ => 0), start % 0x1_0000, 0)
  }

  /** The first cluster of a new directory: its links to itself and to its parent, and end slots. */
  function DotSector(self: u32, parent: u32): Sector {
    Render(DotEntry(DotName(), self)) + Render(DotEntry(DotDotName(), parent)) + Zeros(448)
  }

  lemma DotSectorSlots(self: u32, parent: u32)
    ensures var list := Slots(DotSector(self, parent));
      && list[0] == DotEntry(DotName(), self) && list[1] == DotEntry(DotDotName(), parent)
      && forall j :: 2 <= j < 16 ==> IsEnd(list[j])
  {
    hide Render;
    var s := DotSector(self, parent);
    ParseRender(DotEntry(DotName(), self));
    ParseRender(DotEntry(DotDotName(), parent));
    assert s[32 * 0..32 * 0 + 32] == Render(DotEntry(DotName(), self));
    assert s[32 * 1..32 * 1 + 32] == Render(DotEntry(DotDotName(), parent));
    forall j | 2 <= j < 16 ensures IsEnd(Slot(s, j)) {
      assert s[32 * j..32 * j + 32][0] == 0;
    }
  }

  lemma ZeroSectorSlots()
    ensures forall j :: 0 <= j < 16 ==> IsEnd(Slots(ZeroSector())[j])
  {
    forall j | 0 <= j < 16 ensures IsEnd(Slot(ZeroSector(), j)) {
      assert ZeroSector()[32 * j..32 * j + 32][0] == 0;
    }
  }

  /** The entry written for a new file or directory over whatever the slot held. */
  function NewEntry(slot: Entry, name: seq<byte>, start: u32, isDir: bool): (e: Entry)
    requires |name| == 11
    ensures StartOf(e) == start && e.filename == name && e.size == 0 && (IsDirectory(e) <==> isDir)
  {
    WithStart(slot.(filename := name, size := 0, attributes := if isDir then DIRECTORY else 0), start)
  }

  /** The 32 bytes of a slot for a new file or directory: what the slot held stays where nothing is stored. */
  ghost predicate FreshSlot(r: seq<byte>, was: seq<byte>, name: seq<byte>, start: nat, isDir: bool) {
    && |r| == |was| == 32 && r[..11] == name && r[11] == (if isDir then 0x10 else 0)
    && r[12..20] == was[12..20] && r[22..26] == was[22..26] && r[28..] == [0, 0, 0, 0]
    && start == r[26] as int + 0x100 * r[27] as int + 0x1_0000 * r[20] as int + 0x100_0000 * r[21] as int
  }

  lemma NewEntryIsFresh(slot: Entry, name: seq<byte>, start: u32, isDir: bool)
    requires |name| == 11
    ensures FreshSlot(Render(NewEntry(slot, name, start, isDir)), Render(slot), name, start, isDir)
  {
    var e := NewEntry(slot, name, start, isDir);
    EntryLayout(slot);
    EntryLayout(e);
    assert Render(e)[28..] == WordBytes(0) == [0, 0, 0, 0];
  }

  /** A slot of dot entries, byte by byte. */
  ghost predicate DotSlot(r: seq<byte>, name: seq<byte>, start: nat) {
    && |r| == 32 && r[..11] == name && r[11] == 0x10
    && (forall j :: 12 <= j < 20 || 22 <= j < 26 || 28 <= j < 32 ==> r[j] == 0)
    && start == r[26] as int + 0x100 * r[27] as int + 0x1_0000 * r[20] as int + 0x100_0000 * r[21] as int
  }

  /** The first cluster of a new directory: ".", "..", and nothing but zeros behind them. */
  lemma DotSectorBytes(self: u32, parent: u32)
    ensures var s := DotSector(self, parent);
      && DotSlot(s[..32], [0x2E] + seq(10, _ => 0x20), self)
      && DotSlot(s[32..64], [0x2E, 0x2E] + seq(9, _ => 0x20), parent)
      && forall p :: 64 <= p < 512 ==> s[p] == 0
  {
    var s := DotSector(self, parent);
    DotEntryBytes(DotName(), self);
    DotEntryBytes(DotDotName(), parent);
    assert DotName() == [0x2E] + seq(10, _ => 0x20);
    assert DotDotName() == [0x2E, 0x2E] + seq(9, _ => 0x20);
    hide Render, DotEntry, DotName, DotDotName, DotSlot;
    assert s[..32] == Render(DotEntry(DotName(), self));
    assert s[32..64] == Render(DotEntry(DotDotName(), parent));
  }

  lemma DotEntryBytes(name: seq<byte>, start: u32)
    requires |name| == 11
    ensures DotSlot(Render(DotEntry(name, start)), name, start)
  {
    var e := DotEntry(name, start);
    EntryLayout(e);
    var r := Render(e);
    assert r[28..32] == WordBytes(0) == [0, 0, 0, 0];
    assert forall j :: 12 <= j < 20 ==> r[j] == e.times[j - 12];
    assert forall j :: 22 <= j < 26 ==> r[j] == e.modified[j - 22];
    assert r[28] == r[28..32][0] && r[29] == r[28..32][1] && r[30] == r[28..32][2] && r[31] == r[28..32][3];
  }

  ghost function CreatedStore(st: Store, info: NodeInfo, isDir: bool): Store
    requires Shaped(st) && info.descriptorCluster < |st.data| && info.descriptorOffset < 16
  {
    var f := FirstFree(st.fat);
    var st' := WithEntry(Claim(st, 0), info);
    if isDir then Store(st'.fat, st'.data[f := DotSector(f, info.parentCluster)]) else st'
  }

  ghost function CreatedCatalog(t: Catalog, d: nat, k: nat, f: nat, isDir: bool): Catalog {
    Catalog(t.chains[f := [f]], t.home[f := f], if isDir then t.dirs + {f} else t.dirs, t.owner[f := SlotRef(d, k)])
  }

  /** What creation relies on: a free cluster, a free slot in a directory, and a storable name not yet in it. */
  ghost predicate CanCreate(st: Store, root: nat, t: Catalog, d: nat, k: nat, name: seq<byte>) {
    && WellFormed(st, root, t) && FirstFree(st.fat) != 0
    && IsSlot(st, t, d, k) && IsFreeSlot(Entries(st, t, d), k)
    && |name| == 11 && name[0] != 0 && name[0] != DELETED
    && forall j :: 0 <= j < |Entries(st, t, d)| ==> !IsHit(Entries(st, t, d)[j], name)
  }

  ghost function CreatedInfo(st: Store, t: Catalog, d: nat, k: nat, name: seq<byte>, isDir: bool): NodeInfo
    requires IsSlot(st, t, d, k) && |name| == 11
  {
    NodeInfo(SlotCluster(t, d, k), k % 16, NewEntry(Entries(st, t, d)[k], name, FirstFree(st.fat), isDir), d)
  }

  /** The fresh cluster is in no chain. */
  lemma FreshIsNowhere(st: Store, t: Catalog)
    requires Shaped(st) && ChainsTile(st, t) && FirstFree(st.fat) != 0
    ensures var f := FirstFree(st.fat); f !in t.chains && f !in t.home && 2 <= f < |st.fat| && st.fat[f] == 0
  {
    hide IsChain;
    FirstFreeIsFree(st.fat);
    var f := FirstFree(st.fat);
    if f in t.chains {
      ChainFacts(st, t, f);
    }
    if f in t.home {
      ChainFacts(st, t, t.home[f]);
    }
  }

  /** Creation touches the fresh cluster, its link and one slot. */
  lemma CreateEdits(st: Store, t: Catalog, d: nat, k: nat, name: seq<byte>, isDir: bool)
    requires Shaped(st) && ChainsTile(st, t) && FirstFree(st.fat) != 0 && IsSlot(st, t, d, k) && |name| == 11
    ensures var f, info := FirstFree(st.fat), CreatedInfo(st, t, d, k, name, isDir);
      var st' := CreatedStore(st, info, isDir);
      && Shaped(st') && st'.fat == st.fat[f := END_MARK]
      && st'.data[f] == (if isDir then DotSector(f, d) else ZeroSector())
      && EditsOneSlot(st, st', t, d, k, info.node, f)
  {
    hide Splice, Render, DotSector, ZeroSector, AreChains, ChainsAreHomes, HomesAreChains, NoneLeaked, Entries,
         NewEntry;
    var f := FirstFree(st.fat);
    FreshIsNowhere(st, t);
    SlotFacts(st, t, d, k);
    ClaimStarts(st);
    hide IsPath, LinksInRange, FirstFree;
  }

  lemma CreateKeepsChains(st: Store, st': Store, t: Catalog, t': Catalog, f: nat)
    requires Shaped(st) && ChainsTile(st, t) && 2 <= f < |st.fat| && st.fat[f] == 0
    requires f !in t.chains && f !in t.home
    requires st'.fat == st.fat[f := END_MARK]
    requires t'.chains == t.chains[f := [f]] && t'.home == t.home[f := f]
    ensures ChainsTile(st', t')
  {
    hide AreChains, ChainsAreHomes, HomesAreChains, NoneLeaked, IsChain;
    assert AreChains(st'.fat, t'.chains) by { CreateAddsChain(st.fat, st'.fat, t.chains, f); }
    assert ChainsAreHomes(t'.chains, t'.home) && HomesAreChains(t'.chains, t'.home) by {
      CreateAddsHome(t.chains, t.home, f);
    }
    assert NoneLeaked(st'.fat, t'.home) by { CreateLeaksNone(st.fat, t.home, f); }
  }

  lemma CreateAddsChain(fat: seq<u32>, fat': seq<u32>, chains: map<nat, seq<nat>>, f: nat)
    requires AreChains(fat, chains) && 2 <= f < |fat| && fat[f] == 0 && fat' == fat[f := END_MARK]
    ensures AreChains(fat', chains[f := [f]])
  {
    forall h | h in chains && h != f ensures IsChain(fat', chains[h]) && chains[h][0] == h {
      ChainIsInUse(fat, chains[h]);
      ChainFrame(fat, fat', chains[h]);
    }
  }

  lemma CreateAddsHome(chains: map<nat, seq<nat>>, home: map<nat, nat>, f: nat)
    requires ChainsAreHomes(chains, home) && HomesAreChains(chains, home) && f !in chains && f !in home
    ensures ChainsAreHomes(chains[f := [f]], home[f := f]) && HomesAreChains(chains[f := [f]], home[f := f])
  {
  }

  lemma CreateLeaksNone(fat: seq<u32>, home: map<nat, nat>, f: nat)
    requires NoneLeaked(fat, home) && f < |fat|
    ensures NoneLeaked(fat[f := END_MARK], home[f := f])
  {
  }

  lemma RegularFreeSlot(list: seq<Entry>, root: nat, dirs: set<nat>, d: nat, k: nat)
    requires Dotted(list, root, dirs, d) && IsFreeSlot(list, k)
    ensures Regular(root, d, k)
  {
  }

  /** A directory that was not edited does not notice a new chain. */
  lemma CreateSparesDirectory(list: seq<Entry>, root: nat, t: Catalog, x: nat, d: nat, k: nat, f: nat, isDir: bool)
    requires DirectoryOk(list, root, t, x) && f !in t.chains
    ensures DirectoryOk(list, root, CreatedCatalog(t, d, k, f, isDir), x)
  {
    hide Tidy, UniqueNames, IsHit;
  }

  lemma CreateFillsSlot(list: seq<Entry>, root: nat, t: Catalog, d: nat, k: nat, e: Entry, isDir: bool)
    requires DirectoryOk(list, root, t, d) && IsFreeSlot(list, k) && Live(e)
    requires forall j :: 0 <= j < |list| ==> !IsHit(list[j], e.filename)
    requires StartOf(e) !in t.chains && StartOf(e) !in t.dirs && (IsDirectory(e) <==> isDir)
    ensures DirectoryOk(list[k := e], root, CreatedCatalog(t, d, k, StartOf(e), isDir), d)
  {
    RegularFreeSlot(list, root, t.dirs, d, k);
    TidyAfterEdit(list, k, e);
    UniqueAfterEdit(list, k, e);
    hide Tidy, UniqueNames, IsDirectory, StartOf;
  }

  lemma FreshListing(data: seq<Sector>, f: nat)
    requires f < |data|
    ensures Backed(data, [f]) && Listing(data, [f]) == Slots(data[f])
  {
    hide Slot;
  }

  lemma FreshDirectoryOk(root: nat, t: Catalog, d: nat, k: nat, f: u32)
    requires d in t.dirs && d in t.chains && f != root && d < 0x1_0000_0000 && f !in t.owner
    ensures DirectoryOk(Slots(DotSector(f, d)), root, CreatedCatalog(t, d, k, f, true), f)
  {
    hide DotSector, Slots, DotEntry, IsDirectory, StartOf;
    DotSectorSlots(f, d);
    assert DotName()[1] == SPACE && DotDotName()[1] == DOT;
  }

  /** A new file is empty, and its one cluster all zeros. */
  lemma FreshFileIsGood(st: Store, t: Catalog, e: Entry)
    requires Shaped(st) && StartOf(e) in t.chains && t.chains[StartOf(e)] == [StartOf(e) as nat] && e.size == 0
    requires IsChain(st.fat, [StartOf(e) as nat]) && st.data[StartOf(e)] == ZeroSector()
    ensures GoodFile(FileOf(st, t, e, 0)) && Text(FileOf(st, t, e, 0)) == []
  {
    hide StartOf;
    var s := t.chains[StartOf(e)];
    assert forall p :: 0 <= p < 512 ==> Flat(st.data, s)[p] == st.data[s[p / 512]][p % 512];
  }

  /** The files of a directory after an edit: untouched ones are unchanged, the touched one is vouched for. */
  lemma FilesOkAfterEdit(st: Store, st': Store, t: Catalog, t': Catalog, d: nat, k: nat, e: Entry, h: nat,
                         list: seq<Entry>, list': seq<Entry>)
    requires Shaped(st) && ChainsTile(st, t) && Shaped(st') && ChainsTile(st', t')
    requires IsSlot(st, t, d, k) && EditsOneSlot(st, st', t, d, k, e, h)
    requires FilesOk(st, t, list) && EntriesStartChains(list, t) && |list'| == |list|
    requires forall q :: 0 <= q < |list| && Live(list'[q]) && !IsDirectory(list'[q]) ==>
      || (StartOf(list'[q]) == h && (h in t'.chains ==> GoodFile(FileOf(st', t', list'[q], 0))))
      || (list'[q] == list[q] && StartOf(list[q]) != h)
    requires forall c :: c in t.chains && c != h ==> c in t'.chains && t'.chains[c] == t.chains[c]
    ensures FilesOk(st', t', list')
  {
    hide ChainsTile, EditsOneSlot, GoodFile, Entries, IsDirectory, StartOf, Live;
    forall q | 0 <= q < |list'| && Live(list'[q]) && !IsDirectory(list'[q]) && StartOf(list'[q]) in t'.chains
      ensures GoodFile(FileOf(st', t', list'[q], 0))
    {
      if StartOf(list'[q]) != h {
        FileAfterEdit(st, st', t, t', d, k, e, h, list[q]);
      }
    }
  }

  /** One creation step of a well-formed volume, from (st, t) to (st', t'). */
  ghost predicate Creation(st: Store, root: nat, t: Catalog, d: nat, k: nat, name: seq<byte>, isDir: bool,
                           st': Store, t': Catalog) {
    && CanCreate(st, root, t, d, k, name)
    && st' == CreatedStore(st, CreatedInfo(st, t, d, k, name, isDir), isDir)
    && t' == CreatedCatalog(t, d, k, FirstFree(st.fat), isDir)
  }

  lemma CreationFacts(st: Store, root: nat, t: Catalog, d: nat, k: nat, name: seq<byte>, isDir: bool, st': Store,
                      t': Catalog)
    requires Creation(st, root, t, d, k, name, isDir, st', t')
    ensures var f, e := FirstFree(st.fat), CreatedInfo(st, t, d, k, name, isDir).node;
      && Shaped(st) && ChainsTile(st, t) && Shaped(st') && ChainsTile(st', t')
      && EditsOneSlot(st, st', t, d, k, e, f)
      && st'.data[f] == (if isDir then DotSector(f, d) else ZeroSector())
      && Live(e) && StartOf(e) == f && e.filename == name && e.size == 0 && (IsDirectory(e) <==> isDir)
      && f !in t.chains && f !in t.dirs && f !in t.owner && f != root && f < |st'.data|
  {
    hide ChainsTile, EditsOneSlot, Entries, LinksInRange, CreatedStore, DotSector, IsFreeSlot, IsDirectory, StartOf;
    FreshIsNowhere(st, t);
    CreateEdits(st, t, d, k, name, isDir);
    CreateKeepsChains(st, st', t, t', FirstFree(st.fat));
  }

  lemma CreateKeepsDirectory(st: Store, root: nat, t: Catalog, d: nat, k: nat, name: seq<byte>, isDir: bool,
                             st': Store, t': Catalog, x: nat)
    requires Creation(st, root, t, d, k, name, isDir, st', t') && x in t.dirs
    ensures DirectoryOk(Entries(st', t', x), root, t', x) && FilesOk(st', t', Entries(st', t', x))
  {
    hide Shaped, ChainsTile, EditsOneSlot, FilesOk, Entries, CreatedStore, DotSector, ZeroSector, IsHit, OwnersExist,
         IsFreeSlot, Live, IsDirectory, StartOf, Slots, NewEntry, Tidy, UniqueNames, Dotted, Owned, GoodFile;
    CreationFacts(st, root, t, d, k, name, isDir, st', t');
    var f, e := FirstFree(st.fat), CreatedInfo(st, t, d, k, name, isDir).node;
    var list, list' := Entries(st, t, x), Entries(st', t', x);
    EntriesAfterEdit(st, st', t, t', d, k, e, f, x);
    if x == d {
      CreateFillsSlot(list, root, t, d, k, e, isDir);
    } else {
      CreateSparesDirectory(list, root, t, x, d, k, f, isDir);
    }
    if !isDir {
      ChainFacts(st', t', f);
      FreshFileIsGood(st', t', e);
    }
    FilesOkAfterEdit(st, st', t, t', d, k, e, f, list, list');
  }

  lemma CreateMakesDirectory(st: Store, root: nat, t: Catalog, d: nat, k: nat, name: seq<byte>, st': Store, t': Catalog)
    requires Creation(st, root, t, d, k, name, true, st', t')
    ensures var f := FirstFree(st.fat);
      && Entries(st', t', f) == Slots(DotSector(f, d))
      && DirectoryOk(Entries(st', t', f), root, t', f) && FilesOk(st', t', Entries(st', t', f))
  {
    hide Shaped, ChainsTile, EditsOneSlot, CreatedStore, DotSector, WellFormed, DirectoryOk, IsFreeSlot, StartOf, Slots,
         FilesOk, NewEntry, Listing;
    CreationFacts(st, root, t, d, k, name, true, st', t');
    FreshListing(st'.data, FirstFree(st.fat));
    SlotOwnerIsKnown(st, root, t, d, k);
    FreshDirectoryOk(root, t, d, k, FirstFree(st.fat));
    FreshDirectoryHasNoFiles(st', t', FirstFree(st.fat), d);
  }

  lemma SlotOwnerIsKnown(st: Store, root: nat, t: Catalog, d: nat, k: nat)
    requires WellFormed(st, root, t) && IsSlot(st, t, d, k)
    ensures d in t.dirs && d in t.chains && d < END_MIN
  {
  }

  lemma FreshDirectoryHasNoFiles(st: Store, t: Catalog, self: u32, parent: u32)
    ensures FilesOk(st, t, Slots(DotSector(self, parent)))
  {
    hide Slots, DotSector, DotEntry, GoodFile, IsDirectory;
    DotSectorSlots(self, parent);
  }

  lemma CreateKeepsOwners(st: Store, root: nat, t: Catalog, d: nat, k: nat, name: seq<byte>, isDir: bool, st': Store,
                          t': Catalog)
    requires Creation(st, root, t, d, k, name, isDir, st', t')
    ensures OwnersExist(st', root, t')
  {
    hide Shaped, ChainsTile, EditsOneSlot, FilesOk, Entries, CreatedStore, DotSector, ZeroSector, IsHit,
         IsDirectory, StartOf, Slots, NewEntry, Tidy, UniqueNames, EntriesStartChains, Owned, GoodFile;
    CreationFacts(st, root, t, d, k, name, isDir, st', t');
    var f, e := FirstFree(st.fat), CreatedInfo(st, t, d, k, name, isDir).node;
    RegularFreeSlot(Entries(st, t, d), root, t.dirs, d, k);
    forall h | h in t'.owner
      ensures var r := t'.owner[h];
        && r.dir in t'.dirs && r.slot < |Entries(st', t', r.dir)| && Regular(root, r.dir, r.slot)
        && Live(Entries(st', t', r.dir)[r.slot]) && StartOf(Entries(st', t', r.dir)[r.slot]) == h
    {
      EntriesAfterEdit(st, st', t, t', d, k, e, f, t'.owner[h].dir);
    }
  }

  /** Creating a file or a directory keeps the volume well formed. */
  lemma CreateKeepsWellFormed(st: Store, root: nat, t: Catalog, d: nat, k: nat, name: seq<byte>, isDir: bool,
                              st': Store, t': Catalog)
    requires Creation(st, root, t, d, k, name, isDir, st', t')
    ensures WellFormed(st', root, t')
  {
    hide Shaped, ChainsTile, EditsOneSlot, DirectoryOk, FilesOk, Entries, CreatedStore, DotSector, ZeroSector, IsHit,
         OwnersExist, IsFreeSlot, Live, IsDirectory, StartOf, Slots, NewEntry;
    CreationFacts(st, root, t, d, k, name, isDir, st', t');
    CreateKeepsOwners(st, root, t, d, k, name, isDir, st', t');
    forall x | x in t'.dirs
      ensures DirectoryOk(Entries(st', t', x), root, t', x) && FilesOk(st', t', Entries(st', t', x))
    {
      if x in t.dirs {
        CreateKeepsDirectory(st, root, t, d, k, name, isDir, st', t', x);
      } else {
        CreateMakesDirectory(st, root, t, d, k, name, st', t');
      }
    }
  }

  // ---- Removing a file ----

  ghost function RemovedStore(st: Store, info: NodeInfo): Store
    requires Shaped(st) && info.descriptorCluster < |st.data| && info.descriptorOffset < 16
    requires Follows(StartOf(info.node)) ==> StartOf(info.node) < |st.fat|
  {
    Store(Release(st.fat, StartOf(info.node)), WithEntry(st, info).data)
  }

  ghost function RemovedCatalog(t: Catalog, h: nat): Catalog {
    Catalog(t.chains - {h}, map c | c in t.home && t.home[c] != h :: t.home[c], t.dirs, t.owner - {h})
  }

  ghost function RemovedInfo(st: Store, t: Catalog, d: nat, k: nat): NodeInfo
    requires IsSlot(st, t, d, k)
  {
    NodeInfo(SlotCluster(t, d, k), k % 16, MarkedDeleted(Entries(st, t, d)[k]), d)
  }

  /** A slot that holds a file, as remove and write find it. */
  ghost predicate HoldsFile(st: Store, root: nat, t: Catalog, d: nat, k: nat) {
    && WellFormed(st, root, t) && IsSlot(st, t, d, k)
    && Live(Entries(st, t, d)[k]) && !IsDirectory(Entries(st, t, d)[k])
  }

  /** A file has one owner: the only live entry that starts its chain. */
  lemma OnlyOneOwner(list: seq<Entry>, root: nat, t: Catalog, x: nat, q: nat)
    requires DirectoryOk(list, root, t, x) && x in t.dirs && q < |list| && Live(list[q]) && StartOf(list[q]) !in t.dirs
    ensures Regular(root, x, q) && StartOf(list[q]) in t.owner && t.owner[StartOf(list[q])] == SlotRef(x, q)
  {
    hide Tidy, UniqueNames, StartOf;
  }

  lemma FileFacts(st: Store, root: nat, t: Catalog, d: nat, k: nat)
    requires HoldsFile(st, root, t, d, k)
    ensures var e := Entries(st, t, d)[k];
      var h := StartOf(e);
      && h in t.chains && h !in t.dirs && h != root && h != d
      && h in t.owner && t.owner[h] == SlotRef(d, k)
      && Shaped(st) && ChainsTile(st, t) && GoodFile(FileOf(st, t, e, 0))
      && IsChain(st.fat, t.chains[h]) && t.chains[h][0] == h && 2 <= h < |st.fat|
  {
    hide Shaped, ChainsTile, Entries, StartOf, IsDirectory, Tidy, UniqueNames, Dotted, GoodFile, Live;
    var e := Entries(st, t, d)[k];
    assert DirectoryOk(Entries(st, t, d), root, t, d) && FilesOk(st, t, Entries(st, t, d));
    OnlyOneOwner(Entries(st, t, d), root, t, d, k);
    ChainFacts(st, t, StartOf(e));
  }

  ghost predicate Removal(st: Store, root: nat, t: Catalog, d: nat, k: nat, st': Store, t': Catalog) {
    && HoldsFile(st, root, t, d, k)
    && var e := Entries(st, t, d)[k];
      && (Follows(StartOf(e)) ==> StartOf(e) < |st.fat|)
      && st' == RemovedStore(st, RemovedInfo(st, t, d, k))
      && t' == RemovedCatalog(t, StartOf(e))
  }

  lemma RemovalEdits(st: Store, t: Catalog, d: nat, k: nat, e: Entry, h: u32, st': Store)
    requires Shaped(st) && ChainsTile(st, t) && IsSlot(st, t, d, k) && h in t.chains && h != d && h < |st.fat|
    requires st' == Store(Release(st.fat, h), WithEntry(st, NodeInfo(SlotCluster(t, d, k), k % 16, e, d)).data)
    ensures EditsOneSlot(st, st', t, d, k, e, h) && |st'.fat| == |st.fat|
    ensures forall c :: 0 <= c < |st.fat| ==> st'.fat[c] == if c in t.chains[h] then 0 else st.fat[c]
    ensures Shaped(st')
  {
    hide ChainsTile, Entries, IsChain, Render, Splice, Release;
    ChainFacts(st, t, h);
    SlotFacts(st, t, d, k);
    forall c | 0 <= c < |st.fat| ensures st'.fat[c] == if c in t.chains[h] then 0 else st.fat[c] {
      ReleaseOfChain(st.fat, t.chains[h], c);
    }
  }

  lemma RemovalKeepsChains(st: Store, t: Catalog, h: nat, st': Store)
    requires Shaped(st) && ChainsTile(st, t) && h in t.chains && |st'.fat| == |st.fat|
    requires forall c :: 0 <= c < |st.fat| ==> st'.fat[c] == if c in t.chains[h] then 0 else st.fat[c]
    ensures ChainsTile(st', RemovedCatalog(t, h))
  {
    hide AreChains, ChainsAreHomes, HomesAreChains, NoneLeaked, Shaped;
    RemovalSparesChains(st.fat, st'.fat, t, h);
    RemovalTakesHomes(t, h);
    RemovalLeaksNone(st.fat, st'.fat, t, h);
  }

  lemma MembersAreHome(t: Catalog, h: nat)
    requires ChainsAreHomes(t.chains, t.home) && h in t.chains
    ensures forall c :: c in t.chains[h] ==> c in t.home && t.home[c] == h
  {
    forall c | c in t.chains[h] ensures c in t.home && t.home[c] == h {
      var j := Position(t.chains[h], c);
    }
  }

  lemma RemovalSparesChains(fat: seq<u32>, fat': seq<u32>, t: Catalog, h: nat)
    requires AreChains(fat, t.chains) && ChainsAreHomes(t.chains, t.home) && h in t.chains && |fat'| == |fat|
    requires forall c :: 0 <= c < |fat| ==> fat'[c] == if c in t.chains[h] then 0 else fat[c]
    ensures AreChains(fat', RemovedCatalog(t, h).chains)
  {
    hide AreChains;
    MembersAreHome(t, h);
    forall x | x in t.chains && x != h ensures IsChain(fat', t.chains[x]) && t.chains[x][0] == x {
      assert IsChain(fat, t.chains[x]) && t.chains[x][0] == x by { IsAChain(fat, t.chains, x); }
      assert forall i :: 0 <= i < |t.chains[x]| ==> t.home[t.chains[x][i]] == x;
      ChainFrame(fat, fat', t.chains[x]);
    }
    assert RemovedCatalog(t, h).chains == t.chains - {h};
    AreChainsFrom(fat', t.chains - {h}, t.chains);
  }

  lemma IsAChain(fat: seq<u32>, chains: map<nat, seq<nat>>, x: nat)
    requires AreChains(fat, chains) && x in chains
    ensures IsChain(fat, chains[x]) && chains[x][0] == x
  {
  }

  lemma AreChainsFrom(fat: seq<u32>, some: map<nat, seq<nat>>, all: map<nat, seq<nat>>)
    requires forall x :: x in some ==> x in all && some[x] == all[x] && IsChain(fat, all[x]) && all[x][0] == x
    ensures AreChains(fat, some)
  {
  }

  lemma RemovalTakesHomes(t: Catalog, h: nat)
    requires ChainsAreHomes(t.chains, t.home) && HomesAreChains(t.chains, t.home) && h in t.chains
    ensures ChainsAreHomes(RemovedCatalog(t, h).chains, RemovedCatalog(t, h).home)
    ensures HomesAreChains(RemovedCatalog(t, h).chains, RemovedCatalog(t, h).home)
  {
  }

  lemma RemovalLeaksNone(fat: seq<u32>, fat': seq<u32>, t: Catalog, h: nat)
    requires NoneLeaked(fat, t.home) && HomesAreChains(t.chains, t.home) && h in t.chains && |fat'| == |fat|
    requires forall c :: 0 <= c < |fat| ==> fat'[c] == if c in t.chains[h] then 0 else fat[c]
    ensures NoneLeaked(fat', RemovedCatalog(t, h).home)
  {
  }

  lemma RemovalFacts(st: Store, root: nat, t: Catalog, d: nat, k: nat, st': Store, t': Catalog)
    requires Removal(st, root, t, d, k, st', t')
    ensures var e := Entries(st, t, d)[k];
      var h := StartOf(e);
      && Shaped(st) && ChainsTile(st, t) && Shaped(st') && ChainsTile(st', t')
      && EditsOneSlot(st, st', t, d, k, MarkedDeleted(e), h) && |st'.fat| == |st.fat|
      && h in t.chains && h !in t.dirs && h != root && h != d && h in t.owner && t.owner[h] == SlotRef(d, k)
      && forall c :: 0 <= c < |st.fat| ==> st'.fat[c] == if c in t.chains[h] then 0 else st.fat[c]
  {
    hide WellFormed, ChainsTile, EditsOneSlot, Entries, Shaped, StartOf, Release, GoodFile, IsDirectory, Render,
         IsChain;
    FileFacts(st, root, t, d, k);
    var e := Entries(st, t, d)[k];
    DeletedKeepsStart(e);
    RemovalEdits(st, t, d, k, MarkedDeleted(e), StartOf(e), st');
    RemovalKeepsChains(st, t, StartOf(e), st');
  }

  lemma DeletedKeepsStart(e: Entry)
    ensures StartOf(MarkedDeleted(e)) == StartOf(e) && IsDeleted(MarkedDeleted(e)) && !Live(MarkedDeleted(e))
  {
  }

  /** Clearing the one entry that owned a chain leaves every directory sound without it. */
  lemma RemovalClearsSlot(list: seq<Entry>, root: nat, t: Catalog, x: nat, q: nat, e: Entry)
    requires DirectoryOk(list, root, t, x) && x in t.dirs && q < |list| && Live(list[q]) && StartOf(list[q]) !in t.dirs
    requires IsDeleted(e)
    ensures DirectoryOk(list[q := e], root, RemovedCatalog(t, StartOf(list[q])), x)
  {
    OnlyOneOwner(list, root, t, x, q);
    TidyAfterEdit(list, q, e);
    UniqueAfterEdit(list, q, e);
    hide Tidy, UniqueNames, StartOf, IsDirectory;
    forall j | 0 <= j < |list| && j != q && Live(list[j]) ensures StartOf(list[j]) != StartOf(list[q]) {
      if StartOf(list[j]) !in t.dirs {
        OnlyOneOwner(list, root, t, x, j);
      }
    }
  }

  lemma RemovalSparesDirectory(list: seq<Entry>, root: nat, t: Catalog, x: nat, h: nat, owner: SlotRef)
    requires DirectoryOk(list, root, t, x) && x in t.dirs && h !in t.dirs
    requires h in t.owner && t.owner[h] == owner && owner.dir != x
    ensures DirectoryOk(list, root, RemovedCatalog(t, h), x)
    ensures forall j :: 0 <= j < |list| && Live(list[j]) ==> StartOf(list[j]) != h
  {
    hide Tidy, UniqueNames, StartOf, IsDirectory;
    forall j | 0 <= j < |list| && Live(list[j]) ensures StartOf(list[j]) != h {
      if StartOf(list[j]) !in t.dirs {
        OnlyOneOwner(list, root, t, x, j);
      }
    }
  }

  lemma RemovalKeepsDirectory(st: Store, root: nat, t: Catalog, d: nat, k: nat, st': Store, t': Catalog, x: nat)
    requires Removal(st, root, t, d, k, st', t') && x in t.dirs
    ensures DirectoryOk(Entries(st', t', x), root, t', x) && FilesOk(st', t', Entries(st', t', x))
    ensures Entries(st', t', x) == if x == d then Entries(st, t, d)[k := MarkedDeleted(Entries(st, t, d)[k])]
      else Entries(st, t, x)
  {
    hide Shaped, ChainsTile, EditsOneSlot, FilesOk, Entries, Tidy, UniqueNames, Dotted, Owned, StartOf, IsDirectory,
         GoodFile, Release, OwnersExist, Render, MarkedDeleted;
    RemovalFacts(st, root, t, d, k, st', t');
    var e := Entries(st, t, d)[k];
    var h := StartOf(e);
    var list := Entries(st, t, x);
    EntriesAfterEdit(st, st', t, t', d, k, MarkedDeleted(e), h, x);
    DeletedKeepsStart(e);
    if x == d {
      RemovalClearsSlot(list, root, t, d, k, MarkedDeleted(e));
    } else {
      RemovalSparesDirectory(list, root, t, x, h, SlotRef(d, k));
    }
    FilesOkAfterEdit(st, st', t, t', d, k, MarkedDeleted(e), h, list, Entries(st', t', x));
  }

  lemma RemovalKeepsOwners(st: Store, root: nat, t: Catalog, d: nat, k: nat, st': Store, t': Catalog)
    requires Removal(st, root, t, d, k, st', t')
    ensures OwnersExist(st', root, t')
  {
    hide Shaped, ChainsTile, EditsOneSlot, FilesOk, Entries, StartOf, IsDirectory, DirectoryOk, Release, Live,
         MarkedDeleted, Render;
    RemovalFacts(st, root, t, d, k, st', t');
    forall x | x in t'.owner
      ensures var r := t'.owner[x];
        && r.dir in t'.dirs && r.slot < |Entries(st', t', r.dir)| && Regular(root, r.dir, r.slot)
        && Live(Entries(st', t', r.dir)[r.slot]) && StartOf(Entries(st', t', r.dir)[r.slot]) == x
    {
      RemovalKeepsDirectory(st, root, t, d, k, st', t', t'.owner[x].dir);
    }
  }

  /** Removing a file keeps the volume well formed: its clusters are free again and nothing else has moved. */
  lemma RemovalKeepsWellFormed(st: Store, root: nat, t: Catalog, d: nat, k: nat, st': Store, t': Catalog)
    requires Removal(st, root, t, d, k, st', t')
    ensures WellFormed(st', root, t')
  {
    hide Shaped, ChainsTile, EditsOneSlot, DirectoryOk, FilesOk, Entries, Live, IsDirectory, StartOf, Release,
         OwnersExist;
    RemovalFacts(st, root, t, d, k, st', t');
    RemovalKeepsOwners(st, root, t, d, k, st', t');
    forall x | x in t'.dirs
      ensures DirectoryOk(Entries(st', t', x), root, t', x) && FilesOk(st', t', Entries(st', t', x))
    {
      RemovalKeepsDirectory(st, root, t, d, k, st', t', x);
    }
  }

  // ---- Writing to a file, and reading past its end ----

  ghost function WrittenCatalog(t: Catalog, h: nat, chain: seq<nat>): Catalog {
    Catalog(t.chains[h := chain], t.home + (map c | c in chain :: h), t.dirs, t.owner)
  }

  /** A descriptor on the file in slot (d, k), positioned at `o`. */
  ghost predicate Opened(st: Store, root: nat, t: Catalog, d: nat, k: nat, o: nat, f: OpenFile) {
    && HoldsFile(st, root, t, d, k)
    && StartOf(Entries(st, t, d)[k]) in t.chains
    && f == FileOf(st, t, Entries(st, t, d)[k], o)
    && GoodGrown(f.g)
  }

  /** The file goes on as f': its clusters, then its entry with the size of f'. */
  ghost predicate FileTransition(st: Store, root: nat, t: Catalog, d: nat, k: nat, f: OpenFile, f': OpenFile,
                                 st': Store, t': Catalog) {
    && Opened(st, root, t, d, k, f.offset, f) && Continues(f, f')
    && SlotCluster(t, d, k) < |f'.g.st.data|
    && var e := Entries(st, t, d)[k];
      && st' == WithEntry(f'.g.st, NodeInfo(SlotCluster(t, d, k), k % 16, WithSize(e, f'.size), d))
      && t' == WrittenCatalog(t, StartOf(e), f'.g.chain)
  }

  /** One call of write from a reachable position is such a transition. */
  lemma WriteIsTransition(st: Store, root: nat, t: Catalog, d: nat, k: nat, f: OpenFile, bytes: seq<byte>, st': Store,
                          t': Catalog)
    requires Opened(st, root, t, d, k, f.offset, f) && Reachable(f, f.offset)
    requires var f', e := WriteCall(f, bytes).0, Entries(st, t, d)[k];
      && f'.size < 0x1_0000_0000 && SlotCluster(t, d, k) < |f'.g.st.data|
      && st' == WithEntry(f'.g.st, NodeInfo(SlotCluster(t, d, k), k % 16, WithSize(e, f'.size), d))
      && t' == WrittenCatalog(t, StartOf(e), f'.g.chain)
    ensures FileTransition(st, root, t, d, k, f, WriteCall(f, bytes).0, st', t')
  {
    hide WellFormed, Entries, StartOf, IsDirectory, Live, GoodFile, WriteCall, Continues, WithEntry;
    FileFacts(st, root, t, d, k);
    PositionIsFree(FileOf(st, t, Entries(st, t, d)[k], 0), f);
    WriteContinues(f, bytes);
  }

  /** So is one call of read, from any position: the entry is what it was. */
  lemma ReadIsTransition(st: Store, root: nat, t: Catalog, d: nat, k: nat, f: OpenFile, st': Store, t': Catalog)
    requires Opened(st, root, t, d, k, f.offset, f)
    requires st' == ReadCall(f).g.st && t' == WrittenCatalog(t, StartOf(Entries(st, t, d)[k]), ReadCall(f).g.chain)
    ensures FileTransition(st, root, t, d, k, f, ReadCall(f), st', t')
  {
    hide WellFormed, AreChains, NoneLeaked, ChainsAreHomes, HomesAreChains, Entries, StartOf, IsDirectory, Live,
         GoodFile, Grow, Text, Render;
    var e, c := Entries(st, t, d)[k], SlotCluster(t, d, k);
    FileFacts(st, root, t, d, k);
    PositionIsFree(FileOf(st, t, e, 0), f);
    ReadContinues(f);
    SlotFacts(st, t, d, k);
    MembersAreHome(t, StartOf(e));
    EntryIsThere(st, t, d, k);
    assert st'.data[c] == st.data[c];
    assert st'.data[c := st.data[c]] == st'.data;
  }

  /** Writing an entry back over itself changes nothing. */
  lemma EntryIsThere(st: Store, t: Catalog, d: nat, k: nat)
    requires IsSlot(st, t, d, k)
    ensures var s := st.data[SlotCluster(t, d, k)];
      Splice(s, 32 * (k % 16), Render(Entries(st, t, d)[k])) == s
  {
    var s, j := st.data[SlotCluster(t, d, k)], k % 16;
    EntryBytes(st.data, t.chains[d], k);
    hide Render, Parse;
    assert Splice(s, 32 * j, s[32 * j..32 * j + 32]) == s;
  }

  lemma WritingEdits(st: Store, t: Catalog, d: nat, k: nat, e: Entry, h: nat, r: Grown, st': Store)
    requires Shaped(st) && ChainsTile(st, t) && IsSlot(st, t, d, k) && h in t.chains && h != d
    requires GoodGrown(Grown(st, t.chains[h])) && GoodGrown(r) && KeepsOthers(Grown(st, t.chains[h]), r)
    requires st' == WithEntry(r.st, NodeInfo(SlotCluster(t, d, k), k % 16, e, d))
    ensures EditsOneSlot(st, st', t, d, k, e, h)
    ensures SlotCluster(t, d, k) !in r.chain
    ensures Shaped(st') && st'.fat == r.st.fat
  {
    hide AreChains, NoneLeaked, ChainsAreHomes, Entries, IsChain, Render, Splice;
    SlotFacts(st, t, d, k);
    MembersAreHome(t, h);
    forall c | c in t.home && c < |st.data| && t.home[c] != h
      ensures st'.data[c] == if c == SlotCluster(t, d, k) then Splice(st.data[c], 32 * (k % 16), Render(e))
        else st.data[c]
    {
      ClusterWithHome(st, t, c);
    }
  }

  lemma ClusterWithHome(st: Store, t: Catalog, c: nat)
    requires Shaped(st) && ChainsTile(st, t) && c in t.home
    ensures 2 <= c < |st.fat| && st.fat[c] != 0
  {
    hide AreChains, NoneLeaked, ChainsAreHomes, IsChain, Shaped;
    ChainFacts(st, t, t.home[c]);
  }

  lemma WritingKeepsChains(st: Store, t: Catalog, h: nat, r: Grown, st': Store)
    requires Shaped(st) && ChainsTile(st, t) && h in t.chains && GoodGrown(r)
    requires KeepsOthers(Grown(st, t.chains[h]), r) && st'.fat == r.st.fat
    ensures ChainsTile(st', WrittenCatalog(t, h, r.chain))
  {
    hide AreChains, NoneLeaked, ChainsAreHomes, HomesAreChains, IsChain, Shaped;
    ChainFacts(st, t, h);
    var t' := WrittenCatalog(t, h, r.chain);
    forall x | x in t.chains && x != h
      ensures 0 < |t.chains[x]| && IsChain(r.st.fat, t.chains[x]) && t.chains[x][0] == x
      ensures forall i :: 0 <= i < |t.chains[x]| ==> t.chains[x][i] !in r.chain
    {
      ChainFacts(st, t, x);
      MembersAreHome(t, h);
      ChainFrame(st.fat, r.st.fat, t.chains[x]);
    }
    assert r.chain[0] == t.chains[h][0];
    assert AreChains(r.st.fat, t'.chains) by {
      AreChainsFrom(r.st.fat, t'.chains, t'.chains);
    }
    WritingExtendsHomes(t, h, r.chain);
    forall c | 2 <= c < |st.fat| && r.st.fat[c] != 0 ensures c in t'.home {
      if c !in r.chain {
        UsedHasHome(st.fat, t.home, c);
      }
    }
    NoneLeakedFrom(r.st.fat, t'.home);
  }

  lemma UsedHasHome(fat: seq<u32>, home: map<nat, nat>, c: nat)
    requires NoneLeaked(fat, home) && 2 <= c < |fat| && fat[c] != 0
    ensures c in home
  {
  }

  lemma NoneLeakedFrom(fat: seq<u32>, home: map<nat, nat>)
    requires forall c :: 2 <= c < |fat| && fat[c] != 0 ==> c in home
    ensures NoneLeaked(fat, home)
  {
  }

  lemma WritingExtendsHomes(t: Catalog, h: nat, chain: seq<nat>)
    requires ChainsAreHomes(t.chains, t.home) && HomesAreChains(t.chains, t.home) && h in t.chains
    requires t.chains[h] <= chain
    requires forall x, i :: x in t.chains && x != h && 0 <= i < |t.chains[x]| ==> t.chains[x][i] !in chain
    ensures ChainsAreHomes(WrittenCatalog(t, h, chain).chains, WrittenCatalog(t, h, chain).home)
    ensures HomesAreChains(WrittenCatalog(t, h, chain).chains, WrittenCatalog(t, h, chain).home)
  {
    var t' := WrittenCatalog(t, h, chain);
    forall c | c in t'.home ensures t'.home[c] in t'.chains && c in t'.chains[t'.home[c]] {
      if c !in chain {
        InPrefix(t.chains[h], chain, c);
      }
    }
  }

  /** A file whose entry and chain are both new is as good as the write left it. */
  lemma WrittenFileIsGood(f: OpenFile, st': Store, t': Catalog, e: Entry, c: nat, patch: Sector)
    requires GoodFile(f) && StartOf(e) in t'.chains && t'.chains[StartOf(e)] == f.g.chain && e.size == f.size
    requires st'.fat == f.g.st.fat && c < |f.g.st.data| && st'.data == f.g.st.data[c := patch] && c !in f.g.chain
    ensures GoodFile(FileOf(st', t', e, 0)) && Text(FileOf(st', t', e, 0)) == Text(f)
  {
    hide StartOf, Flat;
    ChainIsBacked(f.g);
    FlatFrame(f.g.st.data, st'.data, f.g.chain);
  }

  lemma ResizedKeepsKind(e: Entry, size: u32)
    ensures var e' := WithSize(e, size);
      && e'.size == size && e'.filename == e.filename && StartOf(e') == StartOf(e)
      && (IsDirectory(e') <==> IsDirectory(e)) && (Live(e') <==> Live(e)) && (IsEnd(e') <==> IsEnd(e))
  {
  }

  lemma FileTransitionFacts(st: Store, root: nat, t: Catalog, d: nat, k: nat, f: OpenFile, f': OpenFile, st': Store,
                            t': Catalog)
    requires FileTransition(st, root, t, d, k, f, f', st', t')
    ensures var e := Entries(st, t, d)[k];
      var h, e' := StartOf(e), WithSize(e, f'.size);
      && Shaped(st) && ChainsTile(st, t) && Shaped(st') && ChainsTile(st', t')
      && EditsOneSlot(st, st', t, d, k, e', h)
      && h in t.chains && h !in t.dirs && h != root && h != d && h in t.owner && t.owner[h] == SlotRef(d, k)
      && StartOf(e') == h && h in t'.chains
      && GoodFile(FileOf(st', t', e', 0)) && Text(FileOf(st', t', e', 0)) == Text(f')
  {
    hide WellFormed, AreChains, NoneLeaked, ChainsAreHomes, HomesAreChains, Entries, StartOf, IsDirectory, Live, Render,
         IsChain, Flat, EditsOneSlot, Splice, KeepsOthers;
    FileFacts(st, root, t, d, k);
    var e := Entries(st, t, d)[k];
    var h, e' := StartOf(e), WithSize(e, f'.size);
    ResizedKeepsKind(e, f'.size);
    WritingEdits(st, t, d, k, e', h, f'.g, st');
    WritingKeepsChains(st, t, h, f'.g, st');
    WrittenFileIsGood(f', st', t', e', SlotCluster(t, d, k), st'.data[SlotCluster(t, d, k)]);
  }

  lemma PositionIsFree(f: OpenFile, g: OpenFile)
    requires GoodFile(f) && g.g == f.g && g.size == f.size
    ensures GoodFile(g) && Text(g) == Text(f)
  {
    hide Flat;
  }

  lemma ResizingKeepsDirectory(list: seq<Entry>, root: nat, t: Catalog, x: nat, k: nat, size: u32, chain: seq<nat>)
    requires DirectoryOk(list, root, t, x) && k < |list| && Live(list[k]) && StartOf(list[k]) in t.chains
    requires !IsDirectory(list[k])
    ensures DirectoryOk(list[k := WithSize(list[k], size)], root, WrittenCatalog(t, StartOf(list[k]), chain), x)
  {
    hide StartOf, IsDirectory;
    ResizedKeepsKind(list[k], size);
    TidyAfterEdit(list, k, WithSize(list[k], size));
    UniqueAfterEdit(list, k, WithSize(list[k], size));
    hide Tidy, UniqueNames;
  }

  lemma WritingSparesDirectory(list: seq<Entry>, root: nat, t: Catalog, x: nat, h: nat, chain: seq<nat>)
    requires DirectoryOk(list, root, t, x) && h in t.chains
    ensures DirectoryOk(list, root, WrittenCatalog(t, h, chain), x)
  {
    hide Tidy, UniqueNames, StartOf, IsDirectory;
  }

  lemma FileTransitionKeepsDirectory(st: Store, root: nat, t: Catalog, d: nat, k: nat, f: OpenFile, f': OpenFile,
                                     st': Store, t': Catalog, x: nat)
    requires FileTransition(st, root, t, d, k, f, f', st', t') && x in t.dirs
    ensures DirectoryOk(Entries(st', t', x), root, t', x) && FilesOk(st', t', Entries(st', t', x))
    ensures Entries(st', t', x)
         == if x == d then Entries(st, t, d)[k := WithSize(Entries(st, t, d)[k], f'.size)]
           else Entries(st, t, x)
  {
    hide Shaped, ChainsTile, EditsOneSlot, FilesOk, Entries, Tidy, UniqueNames, Dotted, Owned, StartOf, IsDirectory,
         GoodFile, OwnersExist, Render, IsChain;
    FileTransitionFacts(st, root, t, d, k, f, f', st', t');
    var e := Entries(st, t, d)[k];
    var h, e' := StartOf(e), WithSize(e, f'.size);
    var list := Entries(st, t, x);
    EntriesAfterEdit(st, st', t, t', d, k, e', h, x);
    ResizedKeepsKind(e, f'.size);
    if x == d {
      ResizingKeepsDirectory(list, root, t, d, k, f'.size, f'.g.chain);
    } else {
      WritingSparesDirectory(list, root, t, x, h, f'.g.chain);
    }
    forall q | 0 <= q < |list| && Live(list[q]) && !IsDirectory(list[q]) && (x != d || q != k)
      ensures StartOf(list[q]) != h
    {
      OnlyOneOwner(list, root, t, x, q);
    }
    FilesOkAfterEdit(st, st', t, t', d, k, e', h, list, Entries(st', t', x));
  }

  lemma FileTransitionKeepsOwners(st: Store, root: nat, t: Catalog, d: nat, k: nat, f: OpenFile, f': OpenFile,
                                  st': Store, t': Catalog)
    requires FileTransition(st, root, t, d, k, f, f', st', t')
    ensures OwnersExist(st', root, t')
  {
    hide Shaped, ChainsTile, EditsOneSlot, FilesOk, Entries, StartOf, IsDirectory, DirectoryOk, Live, Render,
         GoodFile;
    FileTransitionFacts(st, root, t, d, k, f, f', st', t');
    ResizedKeepsKind(Entries(st, t, d)[k], f'.size);
    forall x | x in t'.owner
      ensures var r := t'.owner[x];
        && r.dir in t'.dirs && r.slot < |Entries(st', t', r.dir)| && Regular(root, r.dir, r.slot)
        && Live(Entries(st', t', r.dir)[r.slot]) && StartOf(Entries(st', t', r.dir)[r.slot]) == x
    {
      FileTransitionKeepsDirectory(st, root, t, d, k, f, f', st', t', t'.owner[x].dir);
    }
  }

  /** Writing to a file, also when the disk fills up, or reading past its end keeps the volume well formed. */
  lemma FileTransitionKeepsWellFormed(st: Store, root: nat, t: Catalog, d: nat, k: nat, f: OpenFile, f': OpenFile,
                                      st': Store, t': Catalog)
    requires FileTransition(st, root, t, d, k, f, f', st', t')
    ensures WellFormed(st', root, t')
  {
    hide Shaped, ChainsTile, EditsOneSlot, DirectoryOk, FilesOk, Entries, Live, IsDirectory, StartOf, OwnersExist,
         GoodFile;
    FileTransitionFacts(st, root, t, d, k, f, f', st', t');
    FileTransitionKeepsOwners(st, root, t, d, k, f, f', st', t');
    forall x | x in t'.dirs
      ensures DirectoryOk(Entries(st', t', x), root, t', x) && FilesOk(st', t', Entries(st', t', x))
    {
      FileTransitionKeepsDirectory(st, root, t, d, k, f, f', st', t', x);
    }
  }
}
