/** Whole runs of the file system, and what lookups see before and after each operation. */
module Runs {
  import opened Bytes
  import opened FatTable
  import opened Chains
  import opened FileBytes
  import opened DirEntries
  import opened Names
  import opened Directory
  import opened Files
  import opened FileLaws
  import opened Catalogs
  import opened Transitions

  datatype State = State(st: Store, t: Catalog)

  /** The operations that change a volume, each on an 8.3 name in the directory that starts at cluster `dir`. */
  datatype Op =
    | Create(dir: nat, name: seq<byte>, isDir: bool)
    | Remove(dir: nat, name: seq<byte>)
    | Write(dir: nat, name: seq<byte>, offset: nat, bytes: seq<byte>)
    | Read(dir: nat, name: seq<byte>, offset: nat)

  ghost predicate Storable(name: seq<byte>) {
    |name| == 11 && name[0] != 0 && name[0] != DELETED
  }

  /** A path name is storable if and only if its first byte is not that of a deleted entry. */
  lemma StorableExactlyWhen(f: seq<byte>)
    requires f != [] && 0 !in f
    ensures Storable(Name83(f)) <==> f[0] != DELETED
  {
    hide LastDot;
    var dot := LastDot(f, |f| - 1);
    assert f[0] in f;
    if dot == 0 {
      DotIsAtLastDot(f, |f| - 1);
    }
  }

  /**
   * One operation takes s to s'. Creating an existing name, creating anything in a full directory or a file on a full
   * disk, and removing what is missing or a directory change nothing. Reading changes the volume past the end of the
   * file, where its seek claims clusters. Creating otherwise relies on CreationSafe, making a directory on a free
   * cluster, and writing on a position the disk can reach: see README for what the code does without them.
   */
  ghost predicate Step(root: nat, s: State, op: Op, s': State) {
    var list := Entries(s.st, s.t, op.dir);
    var k := StopAt(list, op.name, 0);
    && Shaped(s.st) && op.dir in s.t.dirs
    && match op
      case Create(d, name, isDir) =>
        Storable(name) &&
        if Finds(list, name) || CreationRefused(s.st, list, name) then s' == s
        else
          && 16 <= |list| && CreationSafe(list, name)
          && if FirstFree(s.st.fat) == 0 then !isDir && s' == s
             else
               var slot := CreationSlot(list, name);
               && IsSlot(s.st, s.t, d, slot)
               && s'.st == CreatedStore(s.st, CreatedInfo(s.st, s.t, d, slot, name, isDir), isDir)
               && s'.t == CreatedCatalog(s.t, d, slot, FirstFree(s.st.fat), isDir)
      case Remove(d, name) =>
        if Finds(list, name) && !IsDirectory(list[k]) then
          && IsSlot(s.st, s.t, d, k)
          && (Follows(StartOf(list[k])) ==> StartOf(list[k]) < |s.st.fat|)
          && s'.st == RemovedStore(s.st, RemovedInfo(s.st, s.t, d, k))
          && s'.t == RemovedCatalog(s.t, StartOf(list[k]))
        else s' == s
      case Write(d, name, o, bytes) =>
        && Finds(list, name) && !IsDirectory(list[k]) && IsSlot(s.st, s.t, d, k) && StartOf(list[k]) in s.t.chains
        && GoodGrown(Grown(s.st, s.t.chains[StartOf(list[k])])) && o + |bytes| < 0x8000_0000
        && var f := FileOf(s.st, s.t, list[k], o);
          WriteLeads(s, d, k, f, bytes, s')
      case Read(d, name, o) =>
        && Finds(list, name) && !IsDirectory(list[k]) && IsSlot(s.st, s.t, d, k) && StartOf(list[k]) in s.t.chains
        && GoodGrown(Grown(s.st, s.t.chains[StartOf(list[k])])) && o < 0x8000_0000
        && var f := ReadCall(FileOf(s.st, s.t, list[k], o));
          s'.st == f.g.st && s'.t == WrittenCatalog(s.t, StartOf(list[k]), f.g.chain)
  }

  predicate IsFileOp(op: Op) {
    op.Write? || op.Read?
  }

  /** The file an operation is about, as a descriptor at its position sees it, once the operation is done. */
  ghost function After(f: OpenFile, op: Op): OpenFile
    requires IsFileOp(op) && GoodGrown(f.g)
  {
    if op.Write? then WriteCall(f, op.bytes).0 else ReadCall(f)
  }

  /** Writing and reading are the two ways a file goes on. */
  lemma FileOpIsTransition(root: nat, s: State, op: Op, s': State)
    requires WellFormed(s.st, root, s.t) && Step(root, s, op, s') && IsFileOp(op)
    ensures var list := Entries(s.st, s.t, op.dir);
      var k := StopAt(list, op.name, 0);
      && k < |list| && IsHit(list[k], op.name) && IsSlot(s.st, s.t, op.dir, k) && StartOf(list[k]) in s.t.chains
      && var f := FileOf(s.st, s.t, list[k], op.offset);
        && GoodGrown(f.g) && HoldsFile(s.st, root, s.t, op.dir, k)
        && FileTransition(s.st, root, s.t, op.dir, k, f, After(f, op), s'.st, s'.t)
  {
    hide WellFormed, Shaped, Entries, StopAt, IsDirectory, StartOf, IsSlot, GoodGrown, WriteCall, ReadCall, WithEntry,
         FileTransition, Reachable;
    var list := Entries(s.st, s.t, op.dir);
    var k := StopAt(list, op.name, 0);
    var f := FileOf(s.st, s.t, list[k], op.offset);
    if op.Write? {
      WriteIsTransition(s.st, root, s.t, op.dir, k, f, op.bytes, s'.st, s'.t);
    } else {
      ReadIsTransition(s.st, root, s.t, op.dir, k, f, s'.st, s'.t);
    }
  }

  ghost predicate WriteLeads(s: State, d: nat, k: nat, f: OpenFile, bytes: seq<byte>, s': State)
    requires IsSlot(s.st, s.t, d, k) && GoodGrown(f.g)
  {
    var f' := WriteCall(f, bytes).0;
    && Reachable(f, f.offset)
    && f'.size < 0x1_0000_0000 && SlotCluster(s.t, d, k) < |f'.g.st.data|
    && s'.t == WrittenCatalog(s.t, StartOf(Entries(s.st, s.t, d)[k]), f'.g.chain)
    && var e' := WithSize(Entries(s.st, s.t, d)[k], f'.size);
      s'.st == WithEntry(f'.g.st, NodeInfo(SlotCluster(s.t, d, k), k % 16, e', d))
  }

  /** A name that starts like a deleted entry. */
  lemma DeletedLookalike()
    ensures !Storable(Name83([DELETED, 0x41]))
  {
    StorableExactlyWhen([DELETED, 0x41]);
  }

  /** Some live entry of a directory starts the chain at f. */
  ghost predicate IsOwned(st: Store, t: Catalog, f: nat) {
    exists x, q :: x in t.dirs && 0 <= q < |Entries(st, t, x)| && Live(Entries(st, t, x)[q])
      && StartOf(Entries(st, t, x)[q]) == f
  }

  /**
   * What creating `name` in slot k of directory d leaves: a cluster in use, found and owned only if the name is
   * storable.
   */
  ghost predicate FoundExactlyWhenStorable(s: State, d: nat, k: nat, name: seq<byte>, isDir: bool)
    requires Shaped(s.st) && IsSlot(s.st, s.t, d, k) && |name| == 11
  {
    var f, st' := FirstFree(s.st.fat), CreatedStore(s.st, CreatedInfo(s.st, s.t, d, k, name, isDir), isDir);
    && (Finds(Entries(st', s.t, d), name) <==> Storable(name))
    && f < |st'.fat| && st'.fat[f] != 0 && (IsOwned(st', s.t, f) <==> Storable(name))
  }

  /**
   * When the code creates any name of 11 bytes in the slot it picks, the cluster it claims is in use; the name is
   * found, and the cluster owned, if and only if the name is storable. Any other name leaks the cluster.
   */
  lemma CreatedIsFoundExactlyWhenStorable(root: nat, s: State, d: nat, name: seq<byte>, isDir: bool)
    requires |name| == 11 && d in s.t.dirs && Shaped(s.st) && FirstFree(s.st.fat) != 0
    requires var list := Entries(s.st, s.t, d);
      !Finds(list, name) && 16 <= |list| && CreationSafe(list, name) && IsSlot(s.st, s.t, d, CreationSlot(list, name))
    requires WellFormed(s.st, root, s.t)
    ensures FoundExactlyWhenStorable(s, d, CreationSlot(Entries(s.st, s.t, d), name), name, isDir)
  {
    hide ChainsTile, OwnersExist, FilesOk, DirectoryOk, Entries, StopAt, CreatedStore, IsDirectory, StartOf,
         CreationSafe, CreationSlot, NewEntry, Finds;
    var list, f := Entries(s.st, s.t, d), FirstFree(s.st.fat);
    var k := CreationSlot(list, name);
    var info := CreatedInfo(s.st, s.t, d, k, name, isDir);
    CreatedListings(root, s, d, k, name, isDir);
    hide NoneStartsAt, IsOwned, IsSlot, Live;
    FilledSlotIsFoundExactlyWhenStorable(list, name, info.node);
    OwnedExactlyWhenLive(s.st, CreatedStore(s.st, info, isDir), s.t, d, k, info.node, f);
  }

  lemma OwnedExactlyWhenLive(st: Store, st': Store, t: Catalog, d: nat, k: nat, e: Entry, f: nat)
    requires d in t.dirs && k < |Entries(st, t, d)| && StartOf(e) == f
    requires forall x :: x in t.dirs ==>
      && Entries(st', t, x) == (if x == d then Entries(st, t, d)[k := e] else Entries(st, t, x))
      && NoneStartsAt(Entries(st, t, x), f)
    ensures IsOwned(st', t, f) <==> Live(e)
  {
    hide Entries, StartOf, Live;
    assert Entries(st', t, d)[k] == e;
  }

  ghost predicate NoneStartsAt(list: seq<Entry>, f: nat) {
    forall q :: 0 <= q < |list| && Live(list[q]) ==> StartOf(list[q]) != f
  }

  /** The listings after such a creation, seen through the old catalog, and that no old entry owns the fresh cluster. */
  lemma CreatedListings(root: nat, s: State, d: nat, k: nat, name: seq<byte>, isDir: bool)
    requires WellFormed(s.st, root, s.t) && IsSlot(s.st, s.t, d, k) && |name| == 11 && FirstFree(s.st.fat) != 0
    ensures var f, info := FirstFree(s.st.fat), CreatedInfo(s.st, s.t, d, k, name, isDir);
      var st' := CreatedStore(s.st, info, isDir);
      && f < |st'.fat| && st'.fat[f] != 0
      && forall x :: x in s.t.dirs ==>
           && Entries(st', s.t, x) == (if x == d then Entries(s.st, s.t, d)[k := info.node] else Entries(s.st, s.t, x))
           && NoneStartsAt(Entries(s.st, s.t, x), f)
  {
    hide Shaped, ChainsTile, Entries, OwnersExist, FilesOk, CreatedStore, IsDirectory, StartOf, Tidy, UniqueNames,
         Dotted, Owned, EditsOneSlot, NewEntry, Live;
    var f, info := FirstFree(s.st.fat), CreatedInfo(s.st, s.t, d, k, name, isDir);
    var st' := CreatedStore(s.st, info, isDir);
    CreateEdits(s.st, s.t, d, k, name, isDir);
    FreshIsNowhere(s.st, s.t);
    forall x | x in s.t.dirs
      ensures Entries(st', s.t, x) == if x == d then Entries(s.st, s.t, d)[k := info.node] else Entries(s.st, s.t, x)
      ensures EntriesStartChains(Entries(s.st, s.t, x), s.t)
    {
      ChainFactsOfDirectory(s.st, root, s.t, x);
      EntriesAfterEdit(s.st, st', s.t, s.t, d, k, info.node, f, x);
    }
  }

  lemma FilledSlotIsFoundExactlyWhenStorable(list: seq<Entry>, name: seq<byte>, e: Entry)
    requires 16 <= |list| && CreationSafe(list, name) && !Finds(list, name) && e.filename == name
    ensures Finds(list[CreationSlot(list, name) := e], name) <==> Storable(name)
    ensures Live(e) <==> Storable(name)
  {
    var k := CreationSlot(list, name);
    var list' := list[k := e];
    StopAtIsFirst(list, name, 0);
    StopAtIsFirst(list', name, 0);
    LastDeletedSplits(list, 0, |list| - 16, |list|);
    assert k <= StopAt(list, name, 0);
    hide CreationSafe, CreationSlot, StopAt, LastDeleted;
    assert Storable(name) ==> IsHit(list'[k], name);
    assert !Storable(name) ==> forall q :: 0 <= q < |list'| ==> !IsHit(list'[q], name);
    assert forall q :: 0 <= q < k ==> list'[q] == list[q];
  }

  lemma NameIsFree(list: seq<Entry>, name: seq<byte>)
    requires Tidy(list) && !Finds(list, name)
    ensures forall j :: 0 <= j < |list| ==> !IsHit(list[j], name)
  {
    forall j | 0 <= j < |list| ensures !IsHit(list[j], name) {
      SearchMisses(list, name, j);
    }
  }

  /** Each operation keeps the volume well formed. */
  lemma StepKeepsWellFormed(root: nat, s: State, op: Op, s': State)
    requires WellFormed(s.st, root, s.t) && Step(root, s, op, s')
    ensures WellFormed(s'.st, root, s'.t)
  {
    hide Shaped, ChainsTile, Entries, OwnersExist, FilesOk, StopAt, CreatedStore, RemovedStore, WriteCall,
         IsDirectory, StartOf, CreationSafe, CreationSlot, Tidy, UniqueNames, Dotted, EntriesStartChains, Owned,
         IsSlot, GoodGrown;
    var list := Entries(s.st, s.t, op.dir);
    var k := StopAt(list, op.name, 0);
    assert DirectoryOk(list, root, s.t, op.dir);
    match op {
      case Create(d, name, isDir) =>
        if !Finds(list, name) && FirstFree(s.st.fat) != 0 {
          var slot := CreationSlot(list, name);
          CreationSlotIsFree(list, name);
          NameIsFree(list, name);
          SlotInRange(s.st, s.t, d, slot);
          assert CanCreate(s.st, root, s.t, d, slot, name) by { hide IsFreeSlot, IsHit; }
          CreateKeepsWellFormed(s.st, root, s.t, d, slot, name, isDir, s'.st, s'.t);
        }
      case Remove(d, name) =>
        if Finds(list, name) && !IsDirectory(list[k]) {
          RemovalKeepsWellFormed(s.st, root, s.t, d, k, s'.st, s'.t);
        }
      case _ =>
        var f := FileOf(s.st, s.t, list[k], op.offset);
        FileOpIsTransition(root, s, op, s');
        FileTransitionKeepsWellFormed(s.st, root, s.t, op.dir, k, f, After(f, op), s'.st, s'.t);
    }
  }

  lemma SlotInRange(st: Store, t: Catalog, d: nat, k: nat)
    requires IsSlot(st, t, d, k)
    ensures k < |Entries(st, t, d)|
  {
  }

  lemma DirectorySlot(root: nat, s: State, x: nat, k: nat)
    requires WellFormed(s.st, root, s.t) && x in s.t.dirs && k < |Entries(s.st, s.t, x)|
    ensures IsSlot(s.st, s.t, x, k)
  {
    hide OwnersExist, DirectoryOk, FilesOk, Entries, ChainsTile;
    SlotFacts(s.st, s.t, x, k);
  }

  /** After any run of operations from a well-formed volume, the volume is well formed at every step. */
  lemma {:induction false} RunKeepsWellFormed(root: nat, ops: seq<Op>, states: seq<State>)
    requires |states| == |ops| + 1 && WellFormed(states[0].st, root, states[0].t)
    requires forall i :: 0 <= i < |ops| ==> Step(root, states[i], ops[i], states[i + 1])
    ensures forall i :: 0 <= i < |states| ==> WellFormed(states[i].st, root, states[i].t)
    decreases |ops|
  {
    hide WellFormed, Step;
    if |ops| > 0 {
      StepKeepsWellFormed(root, states[0], ops[0], states[1]);
      RunKeepsWellFormed(root, ops[1..], states[1..]);
      forall i | 0 <= i < |states| ensures WellFormed(states[i].st, root, states[i].t) {
        if i > 0 {
          assert states[1..][i - 1] == states[i];
        }
      }
    }
  }

  /** A volume just formatted: the root directory is one empty cluster, every other cluster is free. */
  ghost function Formatted(clusters: nat): Store {
    Store(seq(clusters, c => if c == 2 then END_MARK else 0), seq(clusters, _ => ZeroSector()))
  }

  /** The invariant holds to begin with, on a formatted volume of any size. */
  lemma FormattedIsWellFormed(clusters: nat)
    requires 2 < clusters < END_MIN
    ensures WellFormed(Formatted(clusters), 2, Catalog(map[2 := [2]], map[2 := 2], {2}, map[]))
  {
    hide Parse, Slot, GoodFile;
    var st, t := Formatted(clusters), Catalog(map[2 := [2]], map[2 := 2], {2}, map[]);
    var list := Entries(st, t, 2);
    assert IsChain(st.fat, [2]);
    ZeroSectorSlots();
    assert forall k :: 0 <= k < 16 ==> list[k] == Slots(st.data[t.chains[2][k / 16]])[k % 16];
    assert forall k :: 0 <= k < |list| ==> IsEnd(list[k]) && !Live(list[k]);
  }

  /** What the invariant says, in plain terms. */
  lemma WhatWellFormedMeans(st: Store, root: nat, t: Catalog)
    requires WellFormed(st, root, t)
    ensures forall h :: h in t.chains ==> IsChain(st.fat, t.chains[h]) && t.chains[h][0] == h && Distinct(t.chains[h])
    ensures forall g, h, c :: g in t.chains && h in t.chains && c in t.chains[g] && c in t.chains[h] ==> g == h
    ensures forall c :: 2 <= c < |st.fat| ==> (st.fat[c] != 0 <==> exists h :: h in t.chains && c in t.chains[h])
    ensures forall d :: d in t.dirs ==> UniqueNames(Entries(st, t, d)) && Tidy(Entries(st, t, d))
  {
    hide Shaped, OwnersExist, FilesOk, Entries, Tidy, UniqueNames, Dotted, EntriesStartChains, Owned, AreChains,
         NoneLeaked, HomesAreChains, IsChain;
    forall h | h in t.chains
      ensures 0 < |t.chains[h]| && IsChain(st.fat, t.chains[h]) && t.chains[h][0] == h && Distinct(t.chains[h])
    {
      ChainFacts(st, t, h);
    }
    forall g, h, c | g in t.chains && h in t.chains && c in t.chains[g] && c in t.chains[h] ensures g == h {
      MembersAreHome(t, g);
      MembersAreHome(t, h);
    }
    forall c | 2 <= c < |st.fat| ensures st.fat[c] != 0 <==> exists h :: h in t.chains && c in t.chains[h] {
      if st.fat[c] != 0 {
        UsedIsInChain(st, t, c);
      }
      if h :| h in t.chains && c in t.chains[h] {
        MembersAreHome(t, h);
        ClusterWithHome(st, t, c);
      }
    }
  }

  lemma UsedIsInChain(st: Store, t: Catalog, c: nat)
    requires ChainsTile(st, t) && 2 <= c < |st.fat| && st.fat[c] != 0
    ensures exists h :: h in t.chains && c in t.chains[h]
  {
    hide AreChains, ChainsAreHomes;
    assert t.home[c] in t.chains && c in t.chains[t.home[c]];
  }

  // ---- Lookups ----

  /** A name found before and after an edit elsewhere in the list is found in the same slot. */
  lemma LookupSurvivesEdit(list: seq<Entry>, k: nat, e: Entry, name: seq<byte>)
    requires k < |list| && Tidy(list) && UniqueNames(list) && Tidy(list[k := e]) && UniqueNames(list[k := e])
    requires !IsHit(list[k], name) && !IsHit(e, name)
    ensures Finds(list[k := e], name) <==> Finds(list, name)
    ensures Finds(list, name) ==> StopAt(list[k := e], name, 0) == StopAt(list, name, 0)
  {
    hide Tidy, UniqueNames;
    var list' := list[k := e];
    if Finds(list, name) {
      var q := StopAt(list, name, 0);
      assert list'[q] == list[q];
      SearchFindsTheEntry(list', name, q);
    }
    if Finds(list', name) {
      var q := StopAt(list', name, 0);
      assert list'[q] == list[q];
      SearchFindsTheEntry(list, name, q);
    }
  }

  /** Every lookup of a name other than the one the operation is about gives the same slot and the same entry. */
  ghost predicate OthersLookUpTheSame(list: seq<Entry>, list': seq<Entry>, name: seq<byte>) {
    forall n :: n != name ==>
      && (Finds(list', n) <==> Finds(list, n))
      && (Finds(list, n) ==> StopAt(list', n, 0) == StopAt(list, n, 0) && StopAt(list, n, 0) < |list'|
                             && list'[StopAt(list, n, 0)] == list[StopAt(list, n, 0)])
  }

  lemma EditSparesOthers(list: seq<Entry>, k: nat, e: Entry, name: seq<byte>)
    requires k < |list| && Tidy(list) && UniqueNames(list) && Tidy(list[k := e]) && UniqueNames(list[k := e])
    requires Live(list[k]) ==> list[k].filename == name
    requires Live(e) ==> e.filename == name
    ensures OthersLookUpTheSame(list, list[k := e], name)
  {
    hide Tidy, UniqueNames, StopAt, Finds;
    forall n | n != name
      ensures Finds(list[k := e], n) <==> Finds(list, n)
      ensures Finds(list, n) ==> StopAt(list[k := e], n, 0) == StopAt(list, n, 0) && StopAt(list, n, 0) < |list|
                                 && list[k := e][StopAt(list, n, 0)] == list[StopAt(list, n, 0)]
    {
      LookupSurvivesEdit(list, k, e, n);
      FoundIsHit(list, n);
    }
  }

  lemma FoundIsHit(list: seq<Entry>, name: seq<byte>)
    ensures Finds(list, name) ==> StopAt(list, name, 0) < |list| && IsHit(list[StopAt(list, name, 0)], name)
  {
  }

  /** The created entry sits in the slot creation picked. */
  lemma CreatedSits(root: nat, s: State, d: nat, name: seq<byte>, isDir: bool, s': State)
    requires WellFormed(s.st, root, s.t) && Step(root, s, Create(d, name, isDir), s')
    requires !Finds(Entries(s.st, s.t, d), name) && FirstFree(s.st.fat) != 0
    ensures var list, list' := Entries(s.st, s.t, d), Entries(s'.st, s'.t, d);
      && 16 <= |list| && CreationSafe(list, name) && Finds(list', name)
      && var k := CreationSlot(list, name);
        && StopAt(list', name, 0) == k && IsSlot(s.st, s.t, d, k) && IsSlot(s'.st, s'.t, d, k)
        && SlotCluster(s'.t, d, k) == SlotCluster(s.t, d, k)
        && list' == list[k := CreatedInfo(s.st, s.t, d, k, name, isDir).node]
  {
    hide Shaped, ChainsTile, Entries, OwnersExist, FilesOk, StopAt, CreatedStore, IsDirectory, StartOf,
         CreationSafe, CreationSlot, Tidy, UniqueNames, Dotted, EntriesStartChains, Owned, IsSlot, EditsOneSlot;
    var list := Entries(s.st, s.t, d);
    var k := CreationSlot(list, name);
    assert DirectoryOk(list, root, s.t, d);
    CreationSlotIsFree(list, name);
    NameIsFree(list, name);
    SlotInRange(s.st, s.t, d, k);
    FreshIsNowhere(s.st, s.t);
    assert CanCreate(s.st, root, s.t, d, k, name) by { hide IsFreeSlot, IsHit; }
    CreationFacts(s.st, root, s.t, d, k, name, isDir, s'.st, s'.t);
    var e := CreatedInfo(s.st, s.t, d, k, name, isDir).node;
    ChainFactsOfDirectory(s.st, root, s.t, d);
    EntriesAfterEdit(s.st, s'.st, s.t, s'.t, d, k, e, FirstFree(s.st.fat), d);
    CreateKeepsDirectory(s.st, root, s.t, d, k, name, isDir, s'.st, s'.t, d);
    SearchFindsTheEntry(list[k := e], name, k);
    SlotFacts(s'.st, s'.t, d, k);
  }

  /**
   * A created name is found: an empty entry of the right kind, owning a fresh chain of one cluster. Others are
   * unmoved.
   */
  lemma CreatedIsFound(root: nat, s: State, d: nat, name: seq<byte>, isDir: bool, s': State)
    requires WellFormed(s.st, root, s.t) && Step(root, s, Create(d, name, isDir), s')
    requires !Finds(Entries(s.st, s.t, d), name) && FirstFree(s.st.fat) != 0
    ensures var list, list', f := Entries(s.st, s.t, d), Entries(s'.st, s'.t, d), FirstFree(s.st.fat);
      && Finds(list', name)
      && var e := list'[StopAt(list', name, 0)];
        && e.size == 0 && (IsDirectory(e) <==> isDir) && StartOf(e) == f
        && 16 <= |list| && CreationSafe(list, name)
        && FreshSlot(Render(e), Render(list[CreationSlot(list, name)]), name, f, isDir)
        && f !in s.t.chains && f in s'.t.chains && s'.t.chains[f] == [f] && s.st.fat[f] == 0
        && OthersLookUpTheSame(list, list', name)
  {
    hide ChainsTile, Entries, OwnersExist, FilesOk, StopAt, CreatedStore, IsDirectory, StartOf, CreationSafe,
         CreationSlot, Tidy, UniqueNames, Dotted, EntriesStartChains, Owned, OthersLookUpTheSame, NewEntry;
    var list, list' := Entries(s.st, s.t, d), Entries(s'.st, s'.t, d);
    CreatedSits(root, s, d, name, isDir, s');
    FreshIsNowhere(s.st, s.t);
    CreationSlotIsFree(list, name);
    NewEntryIsFresh(list[CreationSlot(list, name)], name, FirstFree(s.st.fat), isDir);
    hide Render, FreshSlot;
    StepKeepsWellFormed(root, s, Create(d, name, isDir), s');
    ChainFactsOfDirectory(s.st, root, s.t, d);
    ChainFactsOfDirectory(s'.st, root, s'.t, d);
    EditSparesOthers(list, CreationSlot(list, name), list'[CreationSlot(list, name)], name);
  }

  lemma ChainFactsOfDirectory(st: Store, root: nat, t: Catalog, d: nat)
    requires WellFormed(st, root, t) && d in t.dirs
    ensures d in t.chains && DirectoryOk(Entries(st, t, d), root, t, d)
  {
  }

  /** In a directory just made, "." leads to itself and ".." to the directory it was made in; nothing else is there. */
  lemma DotsLeadHome(root: nat, s: State, d: nat, name: seq<byte>, s': State)
    requires WellFormed(s.st, root, s.t) && Step(root, s, Create(d, name, true), s')
    requires !Finds(Entries(s.st, s.t, d), name) && FirstFree(s.st.fat) != 0
    ensures var f := FirstFree(s.st.fat);
      var list := Entries(s'.st, s'.t, f);
      && LeadsTo(list, Name83([0x2E]), f) && LeadsTo(list, Name83([0x2E, 0x2E]), d)
      && |list| == 16 && DotSlot(Render(list[0]), [0x2E] + seq(10, _ => 0x20), f)
      && DotSlot(Render(list[1]), [0x2E, 0x2E] + seq(9, _ => 0x20), d)
      && forall n :: n != DotName() && n != DotDotName() ==> !Finds(list, n)
  {
    hide Shaped, ChainsTile, Entries, OwnersExist, FilesOk, StopAt, CreatedStore, CreationSafe, CreationSlot, Slots,
         DotSector, IsSlot, StartOf, IsDirectory, Name83, Render, DotSlot, DotEntry;
    DotNames();
    var list := Entries(s.st, s.t, d);
    var k, f := CreationSlot(list, name), FirstFree(s.st.fat);
    ChainFactsOfDirectory(s.st, root, s.t, d);
    CreationSlotIsFree(list, name);
    NameIsFree(list, name);
    SlotInRange(s.st, s.t, d, k);
    assert CanCreate(s.st, root, s.t, d, k, name) by { hide IsFreeSlot, IsHit; }
    CreateMakesDirectory(s.st, root, s.t, d, k, name, s'.st, s'.t);
    DirectoryStartFits(s.st, s.t, d, k);
    DotSectorSlots(f, d);
    DotEntryBytes(DotName(), f);
    DotEntryBytes(DotDotName(), d);
    var dots := Entries(s'.st, s'.t, f);
    assert DotName()[1] == SPACE && DotDotName()[1] == DOT;
    SearchFindsTheEntry(dots, DotName(), 0);
    SearchFindsTheEntry(dots, DotDotName(), 1);
    forall n | n != DotName() && n != DotDotName() ensures !Finds(dots, n) {
      FoundIsHit(dots, n);
    }
  }

  lemma DirectoryStartFits(st: Store, t: Catalog, d: nat, k: nat)
    requires IsSlot(st, t, d, k)
    ensures d < END_MIN
  {
  }

  /** A removed name is found no more, its clusters are free, and other names are unmoved. */
  lemma RemovedIsGone(root: nat, s: State, d: nat, name: seq<byte>, s': State)
    requires WellFormed(s.st, root, s.t) && Step(root, s, Remove(d, name), s')
    requires var list := Entries(s.st, s.t, d); Finds(list, name) && !IsDirectory(list[StopAt(list, name, 0)])
    ensures var list, list' := Entries(s.st, s.t, d), Entries(s'.st, s'.t, d);
      var k := StopAt(list, name, 0);
      var h := StartOf(list[k]);
      && !Finds(list', name) && OthersLookUpTheSame(list, list', name)
      && k < |list| == |list'| && list' == list[k := list'[k]] && Render(list'[k]) == Render(list[k])[0 := 0xE5]
      && h in s.t.chains && h !in s'.t.chains
      && |s'.st.fat| == |s.st.fat|
      && forall c :: 2 <= c < |s.st.fat| ==> s'.st.fat[c] == if c in s.t.chains[h] then 0 else s.st.fat[c]
  {
    hide Shaped, ChainsTile, Entries, OwnersExist, FilesOk, StopAt, RemovedStore, IsDirectory, StartOf, Tidy,
         UniqueNames, Dotted, EntriesStartChains, Owned, IsSlot, EditsOneSlot, OthersLookUpTheSame, MarkedDeleted;
    var list, list' := Entries(s.st, s.t, d), Entries(s'.st, s'.t, d);
    var k := StopAt(list, name, 0);
    ChainFactsOfDirectory(s.st, root, s.t, d);
    RemovalFacts(s.st, root, s.t, d, k, s'.st, s'.t);
    RemovalKeepsDirectory(s.st, root, s.t, d, k, s'.st, s'.t, d);
    DeletedKeepsStart(list[k]);
    EditSparesOthers(list, k, MarkedDeleted(list[k]), name);
    RemovedSlotIsLast(list, k, MarkedDeleted(list[k]), name);
    DeletedBytes(list[k]);
  }

  lemma RemovedSlotIsLast(list: seq<Entry>, k: nat, e: Entry, name: seq<byte>)
    requires Tidy(list) && UniqueNames(list) && k < |list| && IsHit(list[k], name) && !Live(e)
    ensures !Finds(list[k := e], name)
  {
    FoundIsHit(list[k := e], name);
  }

  /**
   * Entry e became e': the same file, its contents extended with zeros as far as needed and a prefix of `bytes` spliced
   * in at `o`; all of `bytes` if the disk could hold it.
   */
  ghost predicate HoldsWritten(s: State, s': State, e: Entry, e': Entry, o: nat, bytes: seq<byte>) {
    && StartOf(e') == StartOf(e) && StartOf(e) in s.t.chains && StartOf(e) in s'.t.chains && !IsDirectory(e')
    && GoodFile(FileOf(s.st, s.t, e, o)) && GoodFile(FileOf(s'.st, s'.t, e', 0))
    && Render(e')[..28] == Render(e)[..28]
    && var n := WriteCall(FileOf(s.st, s.t, e, o), bytes).1;
      var room := 512 * (|s.t.chains[StartOf(e)]| + |Free(s.st.fat)|);
      && n == (if o + |bytes| <= room then |bytes| else room - o) && n <= |bytes|
      && e'.size == (if e.size > o + n then e.size else o + n)
      && var padded := Text(FileOf(s.st, s.t, e, o)) + Zeros(e'.size - e.size);
        Text(FileOf(s'.st, s'.t, e', 0)) == Splice(padded, o, bytes[..n])
  }

  /** A written file is found where it was, with the right contents; other names are unmoved. */
  lemma WrittenIsFound(root: nat, s: State, d: nat, name: seq<byte>, o: nat, bytes: seq<byte>, s': State)
    requires WellFormed(s.st, root, s.t) && Step(root, s, Write(d, name, o, bytes), s')
    ensures var list, list' := Entries(s.st, s.t, d), Entries(s'.st, s'.t, d);
      var k := StopAt(list, name, 0);
      && Finds(list', name) && StopAt(list', name, 0) == k < |list| && OthersLookUpTheSame(list, list', name)
      && HoldsWritten(s, s', list[k], list'[k], o, bytes)
  {
    hide Shaped, ChainsTile, Entries, OwnersExist, FilesOk, StopAt, IsDirectory, StartOf, Tidy, UniqueNames, GoodFile,
         Text, Dotted, EntriesStartChains, Owned, IsSlot, EditsOneSlot, OthersLookUpTheSame, WithSize, WriteCall;
    var list := Entries(s.st, s.t, d);
    var k := StopAt(list, name, 0);
    var f := FileOf(s.st, s.t, list[k], o);
    ChainFactsOfDirectory(s.st, root, s.t, d);
    var f' := WriteCall(f, bytes).0;
    FileOpIsTransition(root, s, Write(d, name, o, bytes), s');
    FileTransitionFacts(s.st, root, s.t, d, k, f, f', s'.st, s'.t);
    FileTransitionKeepsDirectory(s.st, root, s.t, d, k, f, f', s'.st, s'.t, d);
    var e' := WithSize(list[k], f'.size);
    ResizedKeepsKind(list[k], f'.size);
    SizeBytes(list[k], f'.size);
    SlotInRange(s.st, s.t, d, k);
    SearchFindsTheEntry(list[k := e'], name, k);
    EditSparesOthers(list, k, e', name);
    WriteIsSplice(f, bytes);
  }

  /** A read changes no directory, and the file read keeps its text, on a chain that goes on from the old one. */
  lemma ReadIsSilent(root: nat, s: State, d: nat, name: seq<byte>, o: nat, s': State)
    requires WellFormed(s.st, root, s.t) && Step(root, s, Read(d, name, o), s')
    ensures forall x :: x in s.t.dirs ==> Entries(s'.st, s'.t, x) == Entries(s.st, s.t, x)
    ensures var list := Entries(s.st, s.t, d);
      var k := StopAt(list, name, 0);
      && k < |list| && StartOf(list[k]) in s.t.chains && StartOf(list[k]) in s'.t.chains
      && s.t.chains[StartOf(list[k])] <= s'.t.chains[StartOf(list[k])]
      && GoodFile(FileOf(s.st, s.t, list[k], o)) && GoodFile(FileOf(s'.st, s'.t, list[k], 0))
      && Text(FileOf(s'.st, s'.t, list[k], 0)) == Text(FileOf(s.st, s.t, list[k], o))
  {
    hide Shaped, ChainsTile, Entries, OwnersExist, FilesOk, StopAt, IsDirectory, StartOf, DirectoryOk, GoodFile, Text,
         IsSlot, EditsOneSlot, Grow, IsChain;
    var list := Entries(s.st, s.t, d);
    var k := StopAt(list, name, 0);
    var f := FileOf(s.st, s.t, list[k], o);
    FileOpIsTransition(root, s, Read(d, name, o), s');
    FileTransitionFacts(s.st, root, s.t, d, k, f, ReadCall(f), s'.st, s'.t);
    ReadContinues(f);
    forall x | x in s.t.dirs ensures Entries(s'.st, s'.t, x) == Entries(s.st, s.t, x) {
      FileTransitionKeepsDirectory(s.st, root, s.t, d, k, f, ReadCall(f), s'.st, s'.t, x);
    }
  }

  /** A file the operation is not about keeps its entry, its chain and its contents. */
  lemma BystanderIsUntouched(root: nat, s: State, op: Op, s': State, x: nat, q: nat)
    requires WellFormed(s.st, root, s.t) && Step(root, s, op, s')
    requires HoldsFile(s.st, root, s.t, x, q) && (x != op.dir || Entries(s.st, s.t, x)[q].filename != op.name)
    ensures q < |Entries(s'.st, s'.t, x)| && Entries(s'.st, s'.t, x)[q] == Entries(s.st, s.t, x)[q]
    ensures var e := Entries(s.st, s.t, x)[q];
      && StartOf(e) in s.t.chains && StartOf(e) in s'.t.chains && s'.t.chains[StartOf(e)] == s.t.chains[StartOf(e)]
      && GoodFile(FileOf(s.st, s.t, e, 0)) && GoodFile(FileOf(s'.st, s'.t, e, 0))
      && Text(FileOf(s'.st, s'.t, e, 0)) == Text(FileOf(s.st, s.t, e, 0))
  {
    hide Shaped, ChainsTile, Entries, OwnersExist, FilesOk, StopAt, IsDirectory, StartOf, Tidy, UniqueNames, GoodFile,
         Text, Dotted, EntriesStartChains, Owned, IsSlot, EditsOneSlot, WithSize, WriteCall, CreatedStore,
         RemovedStore, MarkedDeleted, CreationSafe, CreationSlot, CreatedInfo, RemovedInfo;
    var list := Entries(s.st, s.t, op.dir);
    var k := StopAt(list, op.name, 0);
    FileFacts(s.st, root, s.t, x, q);
    SlotInRange(s.st, s.t, x, q);
    ChainFactsOfDirectory(s.st, root, s.t, op.dir);
    match op {
      case Create(d, name, isDir) =>
        if !Finds(list, name) && FirstFree(s.st.fat) != 0 {
          var slot := CreationSlot(list, name);
          CreationSlotIsFree(list, name);
          NameIsFree(list, name);
          SlotInRange(s.st, s.t, d, slot);
          assert CanCreate(s.st, root, s.t, d, slot, name) by { hide IsFreeSlot, IsHit; }
          CreationFacts(s.st, root, s.t, d, slot, name, isDir, s'.st, s'.t);
          EditSparesFile(root, s, s', d, slot, CreatedInfo(s.st, s.t, d, slot, name, isDir).node,
                           FirstFree(s.st.fat), x, q);
        }
      case Remove(d, name) =>
        if Finds(list, name) && !IsDirectory(list[k]) {
          RemovalFacts(s.st, root, s.t, d, k, s'.st, s'.t);
          SlotInRange(s.st, s.t, d, k);
          EditSparesFile(root, s, s', d, k, MarkedDeleted(list[k]), StartOf(list[k]), x, q);
        }
      case _ =>
        FileOpIsTransition(root, s, op, s');
        var f := FileOf(s.st, s.t, list[k], op.offset);
        FileTransitionFacts(s.st, root, s.t, op.dir, k, f, After(f, op), s'.st, s'.t);
        EditSparesFile(root, s, s', op.dir, k, WithSize(list[k], After(f, op).size), StartOf(list[k]), x, q);
    }
  }

  lemma EditSparesFile(root: nat, s: State, s': State, d: nat, k: nat, e: Entry, h: nat, x: nat, q: nat)
    requires HoldsFile(s.st, root, s.t, x, q) && IsSlot(s.st, s.t, d, k) && (x != d || q != k)
    requires Shaped(s'.st) && ChainsTile(s'.st, s'.t) && EditsOneSlot(s.st, s'.st, s.t, d, k, e, h)
    requires forall c :: c in s.t.chains && c != h ==> c in s'.t.chains && s'.t.chains[c] == s.t.chains[c]
    requires h !in s.t.dirs && (h in s.t.owner ==> s.t.owner[h] == SlotRef(d, k))
    requires (h in s.t.owner <==> h in s.t.chains)
    ensures q < |Entries(s'.st, s'.t, x)| && Entries(s'.st, s'.t, x)[q] == Entries(s.st, s.t, x)[q]
    ensures var file := Entries(s.st, s.t, x)[q];
      && StartOf(file) in s.t.chains && StartOf(file) in s'.t.chains
      && s'.t.chains[StartOf(file)] == s.t.chains[StartOf(file)]
      && GoodFile(FileOf(s.st, s.t, file, 0)) && GoodFile(FileOf(s'.st, s'.t, file, 0))
      && Text(FileOf(s'.st, s'.t, file, 0)) == Text(FileOf(s.st, s.t, file, 0))
  {
    hide Shaped, ChainsTile, Entries, StartOf, IsDirectory, GoodFile, Text, EditsOneSlot, DirectoryOk, FilesOk,
         OwnersExist;
    FileFacts(s.st, root, s.t, x, q);
    SlotInRange(s.st, s.t, x, q);
    EntriesAfterEdit(s.st, s'.st, s.t, s'.t, d, k, e, h, x);
    FileAfterEdit(s.st, s'.st, s.t, s'.t, d, k, e, h, Entries(s.st, s.t, x)[q]);
  }

  // ---- Paths ----

  /** The directory that `path` leads to from directory d, following directories only; 0 when it leads to none. */
  ghost function Follow(s: State, d: nat, path: seq<seq<byte>>): nat
    decreases |path|
  {
    if path == [] then d
    else
      var list := Entries(s.st, s.t, d);
      if Finds(list, path[0]) && IsDirectory(list[StopAt(list, path[0], 0)])
      then Follow(s, StartOf(list[StopAt(list, path[0], 0)]), path[1..])
      else 0
  }

  /** `name` leads from directory x to directory y. */
  ghost predicate LeadsTo(list: seq<Entry>, name: seq<byte>, y: nat) {
    Finds(list, name) && IsDirectory(list[StopAt(list, name, 0)]) && StartOf(list[StopAt(list, name, 0)]) == y
  }

  lemma SameEntryLeadsOn(list: seq<Entry>, list': seq<Entry>, name: seq<byte>, n: seq<byte>, y: nat)
    requires OthersLookUpTheSame(list, list', name) && n != name && LeadsTo(list, n, y)
    ensures LeadsTo(list', n, y)
  {
    hide StopAt, StartOf, IsDirectory;
    FoundIsHit(list, n);
    FoundIsHit(list', n);
  }

  /** No operation breaks a link to a directory. */
  lemma LinksSurvive(root: nat, s: State, op: Op, s': State, x: nat, n: seq<byte>, y: nat)
    requires WellFormed(s.st, root, s.t) && Step(root, s, op, s') && x in s.t.dirs
    requires LeadsTo(Entries(s.st, s.t, x), n, y)
    ensures LeadsTo(Entries(s'.st, s'.t, x), n, y)
  {
    hide Shaped, ChainsTile, Entries, OwnersExist, FilesOk, StopAt, IsDirectory, StartOf, DirectoryOk, HoldsWritten,
         OthersLookUpTheSame, IsSlot, EditsOneSlot, WithSize, WriteCall, CreatedStore, RemovedStore, MarkedDeleted,
         CreationSafe, CreationSlot, CreatedInfo, RemovedInfo, GoodGrown, LeadsTo;
    if x == op.dir && LeadsTo(Entries(s.st, s.t, x), op.name, y) && n == op.name {
      TargetIsNoDirectory(root, s, op, s', y);
    } else if x == op.dir {
      match op {
        case Create(d, name, isDir) =>
          if !Finds(Entries(s.st, s.t, d), name) && FirstFree(s.st.fat) != 0 {
            CreatedIsFound(root, s, d, name, isDir, s');
            SameEntryLeadsOn(Entries(s.st, s.t, x), Entries(s'.st, s'.t, x), name, n, y);
          }
        case Remove(d, name) =>
          var list := Entries(s.st, s.t, d);
          if Finds(list, name) && !IsDirectory(list[StopAt(list, name, 0)]) {
            RemovedIsGone(root, s, d, name, s');
            SameEntryLeadsOn(Entries(s.st, s.t, x), Entries(s'.st, s'.t, x), name, n, y);
          }
        case Write(d, name, o, bytes) =>
          WrittenIsFound(root, s, d, name, o, bytes, s');
          SameEntryLeadsOn(Entries(s.st, s.t, x), Entries(s'.st, s'.t, x), name, n, y);
        case Read(d, name, o) =>
          ReadIsSilent(root, s, d, name, o, s');
      }
    } else {
      OtherDirectoriesStay(root, s, op, s', x);
    }
  }

  /** An operation about a name that leads to a directory changes nothing. */
  lemma TargetIsNoDirectory(root: nat, s: State, op: Op, s': State, y: nat)
    requires WellFormed(s.st, root, s.t) && Step(root, s, op, s')
    requires LeadsTo(Entries(s.st, s.t, op.dir), op.name, y)
    ensures s' == s
  {
    hide WellFormed, Entries, StopAt, StartOf, IsDirectory, WriteLeads, CreatedStore, RemovedStore, CreationSafe;
  }

  lemma OtherDirectoriesStay(root: nat, s: State, op: Op, s': State, x: nat)
    requires WellFormed(s.st, root, s.t) && Step(root, s, op, s') && x in s.t.dirs && x != op.dir
    ensures Entries(s'.st, s'.t, x) == Entries(s.st, s.t, x)
  {
    hide Shaped, ChainsTile, Entries, OwnersExist, FilesOk, StopAt, IsDirectory, StartOf, Tidy, UniqueNames, GoodFile,
         Dotted, EntriesStartChains, Owned, IsSlot, EditsOneSlot, WithSize, WriteCall, CreatedStore, RemovedStore,
         MarkedDeleted, CreationSafe, CreationSlot, CreatedInfo, RemovedInfo;
    var list := Entries(s.st, s.t, op.dir);
    var k := StopAt(list, op.name, 0);
    ChainFactsOfDirectory(s.st, root, s.t, op.dir);
    match op {
      case Create(d, name, isDir) =>
        if !Finds(list, name) && FirstFree(s.st.fat) != 0 {
          var slot := CreationSlot(list, name);
          CreationSlotIsFree(list, name);
          NameIsFree(list, name);
          SlotInRange(s.st, s.t, d, slot);
          assert CanCreate(s.st, root, s.t, d, slot, name) by { hide IsFreeSlot, IsHit; }
          CreationFacts(s.st, root, s.t, d, slot, name, isDir, s'.st, s'.t);
          EntriesAfterEdit(s.st, s'.st, s.t, s'.t, d, slot, CreatedInfo(s.st, s.t, d, slot, name, isDir).node,
                           FirstFree(s.st.fat), x);
        }
      case Remove(d, name) =>
        if Finds(list, name) && !IsDirectory(list[k]) {
          RemovalKeepsDirectory(s.st, root, s.t, d, k, s'.st, s'.t, x);
        }
      case _ =>
        FileOpIsTransition(root, s, op, s');
        var f := FileOf(s.st, s.t, list[k], op.offset);
        FileTransitionKeepsDirectory(s.st, root, s.t, op.dir, k, f, After(f, op), s'.st, s'.t, x);
    }
  }

  /** Every path to a directory leads to the same directory after any operation. */
  lemma {:induction false} PathsSurvive(root: nat, s: State, op: Op, s': State, d: nat, path: seq<seq<byte>>)
    requires WellFormed(s.st, root, s.t) && Step(root, s, op, s') && d in s.t.dirs
    requires Follow(s, d, path) != 0
    ensures Follow(s', d, path) == Follow(s, d, path) && Follow(s, d, path) in s.t.dirs
    decreases |path|
  {
    hide Step, Entries, StopAt, Shaped, ChainsTile, StartOf, IsDirectory, OwnersExist, FilesOk;
    if path != [] {
      var list := Entries(s.st, s.t, d);
      var y := StartOf(list[StopAt(list, path[0], 0)]);
      LinksSurvive(root, s, op, s', d, path[0], y);
      FoundIsHit(list, path[0]);
      assert DirectoryOk(list, root, s.t, d);
      PathsSurvive(root, s, op, s', y, path[1..]);
    }
  }

  /**
   * Creating `name` under a path, then looking the whole path up again, finds it: the path still leads to the same
   * directory, and there the name is a new empty entry.
   */
  lemma CreatedPathResolves(root: nat, s: State, path: seq<seq<byte>>, name: seq<byte>, isDir: bool, s': State)
    requires WellFormed(s.st, root, s.t) && Follow(s, root, path) != 0
    requires Step(root, s, Create(Follow(s, root, path), name, isDir), s')
    requires !Finds(Entries(s.st, s.t, Follow(s, root, path)), name) && FirstFree(s.st.fat) != 0
    ensures var d := Follow(s', root, path);
      var list := Entries(s'.st, s'.t, d);
      && d == Follow(s, root, path) && Finds(list, name)
      && var e := list[StopAt(list, name, 0)];
        e.size == 0 && (IsDirectory(e) <==> isDir) && StartOf(e) == FirstFree(s.st.fat)
  {
    hide Step, Entries, StopAt, Shaped, ChainsTile, StartOf, IsDirectory, OwnersExist, FilesOk, Follow, DirectoryOk,
         OthersLookUpTheSame;
    var d := Follow(s, root, path);
    PathsSurvive(root, s, Create(d, name, isDir), s', root, path);
    CreatedIsFound(root, s, d, name, isDir, s');
  }

  /** After removing the file a path names, the path resolves no more. */
  lemma RemovedPathIsGone(root: nat, s: State, path: seq<seq<byte>>, name: seq<byte>, s': State)
    requires WellFormed(s.st, root, s.t) && Follow(s, root, path) != 0
    requires Step(root, s, Remove(Follow(s, root, path), name), s')
    requires var list := Entries(s.st, s.t, Follow(s, root, path));
      Finds(list, name) && !IsDirectory(list[StopAt(list, name, 0)])
    ensures Follow(s', root, path) == Follow(s, root, path)
    ensures !Finds(Entries(s'.st, s'.t, Follow(s', root, path)), name)
  {
    hide Step, Entries, StopAt, Shaped, ChainsTile, StartOf, IsDirectory, OwnersExist, FilesOk, Follow, DirectoryOk,
         OthersLookUpTheSame;
    var d := Follow(s, root, path);
    PathsSurvive(root, s, Remove(d, name), s', root, path);
    RemovedIsGone(root, s, d, name, s');
  }

  /** A path goes on to where its last name leads. */
  lemma {:induction false} FollowOneMore(s: State, d: nat, path: seq<seq<byte>>, n: seq<byte>, y: nat)
    requires Follow(s, d, path) != 0 && LeadsTo(Entries(s.st, s.t, Follow(s, d, path)), n, y)
    ensures Follow(s, d, path + [n]) == y
    decreases |path|
  {
    hide Entries, StopAt, StartOf, IsDirectory;
    if path != [] {
      var list := Entries(s.st, s.t, d);
      assert (path + [n])[1..] == path[1..] + [n];
      FollowOneMore(s, StartOf(list[StopAt(list, path[0], 0)]), path[1..], n, y);
    } else {
      assert (path + [n])[1..] == [];
    }
  }

  /** After mkdir, the path and "path/." lead to the new directory, and "path/.." to where it was made. */
  lemma MadeDirectoryPaths(root: nat, s: State, path: seq<seq<byte>>, name: seq<byte>, s': State)
    requires WellFormed(s.st, root, s.t) && Follow(s, root, path) != 0
    requires Step(root, s, Create(Follow(s, root, path), name, true), s')
    requires !Finds(Entries(s.st, s.t, Follow(s, root, path)), name) && FirstFree(s.st.fat) != 0
    ensures Follow(s', root, path + [name]) == FirstFree(s.st.fat)
    ensures Follow(s', root, path + [name] + [Name83([DOT])]) == FirstFree(s.st.fat)
    ensures Follow(s', root, path + [name] + [Name83([DOT, DOT])]) == Follow(s, root, path)
  {
    hide Step, Entries, StopAt, Shaped, ChainsTile, StartOf, IsDirectory, OwnersExist, FilesOk, Follow, DirectoryOk,
         OthersLookUpTheSame, Name83;
    var d, f := Follow(s, root, path), FirstFree(s.st.fat);
    CreatedPathResolves(root, s, path, name, true, s');
    DotsLeadHome(root, s, d, name, s');
    FollowOneMore(s', root, path, name, f);
    FollowOneMore(s', root, path + [name], Name83([DOT]), f);
    FollowOneMore(s', root, path + [name], Name83([DOT, DOT]), d);
  }

  // ---- One tree ----

  /** Every directory can be reached from the root, and ".." of each but the root leads to where its own entry is. */
  ghost predicate Rooted(root: nat, s: State) {
    && (forall d :: d in s.t.dirs ==> IsReachable(root, s, d))
    && (forall d :: d in s.t.dirs && d != root ==> ParentIsOwner(s, d))
  }

  ghost predicate IsReachable(root: nat, s: State, d: nat) {
    exists path :: Follow(s, root, path) == d
  }

  ghost predicate ParentIsOwner(s: State, d: nat) {
    d in s.t.owner && LeadsTo(Entries(s.st, s.t, d), DotDotName(), s.t.owner[d].dir)
  }

  /** The only new directory is one just made, and no directory changes owner. */
  lemma DirectoriesOnlyGrow(root: nat, s: State, op: Op, s': State)
    requires WellFormed(s.st, root, s.t) && Step(root, s, op, s')
    ensures s'.t.dirs == s.t.dirs || (op.Create? && op.isDir && !Finds(Entries(s.st, s.t, op.dir), op.name)
      && FirstFree(s.st.fat) != 0 && s'.t.dirs == s.t.dirs + {FirstFree(s.st.fat)}
      && FirstFree(s.st.fat) in s'.t.owner && s'.t.owner[FirstFree(s.st.fat)].dir == op.dir)
    ensures forall d :: d in s.t.dirs && d in s.t.owner ==> d in s'.t.owner && s'.t.owner[d] == s.t.owner[d]
  {
    hide ChainsTile, OwnersExist, FilesOk, StopAt, IsDirectory, StartOf, CreationSafe, Shaped, Entries, WriteCall,
         CreatedStore, RemovedStore, Tidy, UniqueNames, Dotted, Owned, IsSlot;
    var list := Entries(s.st, s.t, op.dir);
    ChainFactsOfDirectory(s.st, root, s.t, op.dir);
    FoundIsHit(list, op.name);
    if FirstFree(s.st.fat) != 0 {
      FreshIsNowhere(s.st, s.t);
    }
  }

  lemma StepKeepsRooted(root: nat, s: State, op: Op, s': State)
    requires WellFormed(s.st, root, s.t) && Rooted(root, s) && Step(root, s, op, s')
    ensures Rooted(root, s')
  {
    hide WellFormed, Step, Follow, LeadsTo, Entries, Finds, FirstFreeFrom, IsDirectory, Name83;
    DirectoriesOnlyGrow(root, s, op, s');
    RootIsDirectory(root, s);
    forall d | d in s.t.dirs ensures IsReachable(root, s', d) && (d != root ==> ParentIsOwner(s', d)) {
      var path :| Follow(s, root, path) == d;
      PathsSurvive(root, s, op, s', root, path);
      if d != root {
        LinksSurvive(root, s, op, s', d, DotDotName(), s.t.owner[d].dir);
      }
    }
    if s'.t.dirs != s.t.dirs {
      StepIsInDirectory(root, s, op, s');
      var path :| Follow(s, root, path) == op.dir;
      MadeDirectoryPaths(root, s, path, op.name, s');
      DotsLeadHome(root, s, op.dir, op.name, s');
      DotNames();
    }
  }

  lemma RootIsDirectory(root: nat, s: State)
    requires WellFormed(s.st, root, s.t)
    ensures root in s.t.dirs && 0 !in s.t.dirs
  {
    hide Shaped, OwnersExist, FilesOk, DirectoryOk, Entries;
    if 0 in s.t.dirs {
      ChainFacts(s.st, s.t, 0);
    }
  }

  lemma StepIsInDirectory(root: nat, s: State, op: Op, s': State)
    requires Step(root, s, op, s')
    ensures op.dir in s.t.dirs
  {
    hide Shaped, Entries, StopAt, IsDirectory, StartOf, CreationSafe, WriteCall, CreatedStore, RemovedStore;
  }

  /** Over every run the directories form one tree below the root, which ".." climbs. */
  lemma {:induction false} RunKeepsRooted(root: nat, ops: seq<Op>, states: seq<State>)
    requires |states| == |ops| + 1 && WellFormed(states[0].st, root, states[0].t) && Rooted(root, states[0])
    requires forall i :: 0 <= i < |ops| ==> Step(root, states[i], ops[i], states[i + 1])
    ensures forall i :: 0 <= i < |states| ==> Rooted(root, states[i])
    decreases |ops|
  {
    hide WellFormed, Step, Rooted;
    if |ops| > 0 {
      StepKeepsWellFormed(root, states[0], ops[0], states[1]);
      StepKeepsRooted(root, states[0], ops[0], states[1]);
      RunKeepsRooted(root, ops[1..], states[1..]);
      forall i | 0 <= i < |states| ensures Rooted(root, states[i]) {
        if i > 0 {
          assert states[1..][i - 1] == states[i];
        }
      }
    }
  }

  /** A formatted volume is such a tree. */
  lemma FormattedIsRooted(clusters: nat)
    ensures Rooted(2, State(Formatted(clusters), Catalog(map[2 := [2]], map[2 := 2], {2}, map[])))
  {
    var s := State(Formatted(clusters), Catalog(map[2 := [2]], map[2 := 2], {2}, map[]));
    hide Formatted;
    assert Follow(s, 2, []) == 2;
  }
}
