/**
 * The calls of the file system: open, create, remove and make directories by path, read and write through a
 * descriptor.
 */
module FileSystems {
  import opened Bytes
  import opened FatTable
  import opened FatCache
  import opened Chains
  import opened FileBytes
  import opened DirEntries
  import opened Names
  import opened Fat32Volume
  import opened Files
  import opened FileLaws
  import opened Directory
  import opened Catalogs
  import opened Transitions
  import opened Runs
  import opened Paths

  /** The 8.3 names of path segments. */
  ghost function Encode(segs: seq<seq<byte>>): seq<seq<byte>>
    requires NonEmpty(segs)
  {
    if segs == [] then [] else [Name83(segs[0])] + Encode(segs[1..])
  }

  /** Every name of a path is stored and sought as its own 8.3 name. */
  lemma {:induction false} EncodeIsNameByName(segs: seq<seq<byte>>)
    requires NonEmpty(segs)
    ensures |Encode(segs)| == |segs| && forall i :: 0 <= i < |segs| ==> Encode(segs)[i] == Name83(segs[i])
    decreases |segs|
  {
    if segs != [] {
      EncodeIsNameByName(segs[1..]);
    }
  }

  function Front<T>(s: seq<T>): seq<T>
    requires s != []
  {
    s[..|s| - 1]
  }

  /** No name on the way is that of a regular file: the code would read the file's contents as a directory. */
  ghost predicate WalksDirectories(s: State, d: nat, names: seq<seq<byte>>)
    decreases |names|
  {
    names == [] ||
    var list := Entries(s.st, s.t, d);
    Finds(list, names[0]) ==>
      var e := list[StopAt(list, names[0], 0)];
      IsDirectory(e) && WalksDirectories(s, StartOf(e), names[1..])
  }

  /** Creation in directory x finds the name there, or a slot for it that lies in the directory, or is refused. */
  ghost predicate HasRoomFor(s: State, x: nat, name: seq<byte>) {
    var list := Entries(s.st, s.t, x);
    Finds(list, name) || (16 <= |list| && CreationSafe(list, name)) || CreationRefused(s.st, list, name)
  }

  /** What looking `name` up in directory x yields. */
  ghost function ResolveIn(s: State, x: nat, name: seq<byte>, creating: bool): NodeInfo
    requires Shaped(s.st) && x in s.t.chains && IsChain(s.st.fat, s.t.chains[x]) && x < END_MIN
    requires creating ==> HasRoomFor(s, x, name)
  {
    var list, chain := Entries(s.st, s.t, x), s.t.chains[x];
    if Finds(list, name) then Place(chain, list, StopAt(list, name, 0), x)
    else if !creating || CreationRefused(s.st, list, name) then Nowhere()
    else
      var k := CreationSlot(list, name);
      Place(chain, list, k, x).(node := MarkedDeleted(list[k]))
  }

  lemma {:induction false} FollowEndsInDirectory(root: nat, s: State, d: nat, names: seq<seq<byte>>)
    requires WellFormed(s.st, root, s.t) && d in s.t.dirs
    ensures var x := Follow(s, d, names); x != 0 ==> x in s.t.dirs
    decreases |names|
  {
    hide Shaped, ChainsTile, Entries, OwnersExist, FilesOk, StopAt, StartOf, IsDirectory;
    if names != [] {
      var list := Entries(s.st, s.t, d);
      assert DirectoryOk(list, root, s.t, d);
      if LeadsTo(list, names[0], if Finds(list, names[0]) then StartOf(list[StopAt(list, names[0], 0)]) else 0) {
        FoundIsHit(list, names[0]);
        FollowEndsInDirectory(root, s, StartOf(list[StopAt(list, names[0], 0)]), names[1..]);
      }
    }
  }

  lemma DirectoryChain(root: nat, s: State, x: nat)
    requires WellFormed(s.st, root, s.t) && (x in s.t.dirs || x in s.t.chains)
    ensures Shaped(s.st) && x in s.t.chains && IsDirectoryChain(s.st, s.t.chains[x]) && s.t.chains[x][0] == x
    ensures x < END_MIN && 2 <= x < |s.st.fat| && |Entries(s.st, s.t, x)| == 16 * |s.t.chains[x]|
    ensures 16 <= |Entries(s.st, s.t, x)|
    ensures Backed(s.st.data, s.t.chains[x]) && Entries(s.st, s.t, x) == Listing(s.st.data, s.t.chains[x])
  {
    hide OwnersExist, FilesOk, DirectoryOk, Listing;
    ChainFacts(s.st, s.t, x);
    assert s.t.chains[x][0] < |s.st.fat|;
  }

  /** Where a walk of `segs` from directory d ends: the directory its last name is looked up in, or 0. */
  ghost function WalkEnd(s: State, d: nat, segs: seq<seq<byte>>): nat
    requires segs != [] && NonEmpty(segs)
  {
    Follow(s, d, Encode(Front(segs)))
  }

  /** The walk is one the code was made for: only directories on the way, and room at the end if it is to create. */
  ghost predicate Walkable(s: State, d: nat, segs: seq<seq<byte>>, creating: bool)
    requires segs != [] && NonEmpty(segs)
  {
    && WalksDirectories(s, d, Encode(Front(segs)))
    && (creating && WalkEnd(s, d, segs) != 0 ==> HasRoomFor(s, WalkEnd(s, d, segs), Name83(segs[|segs| - 1])))
  }

  /** What a whole walk yields. */
  ghost predicate Yields(s: State, d: nat, segs: seq<seq<byte>>, creating: bool, info: NodeInfo)
    requires segs != [] && NonEmpty(segs)
  {
    var x := WalkEnd(s, d, segs);
    if x == 0 then info == Nowhere()
    else
      && Shaped(s.st) && x in s.t.dirs && x in s.t.chains && IsChain(s.st.fat, s.t.chains[x]) && x < END_MIN
      && (creating ==> HasRoomFor(s, x, Name83(segs[|segs| - 1])))
      && info == ResolveIn(s, x, Name83(segs[|segs| - 1]), creating)
  }

  /** One step of the walk: into the directory the first name leads to. */
  lemma WalkStep(root: nat, s: State, d: nat, segs: seq<seq<byte>>, creating: bool, e: Entry)
    requires WellFormed(s.st, root, s.t) && d in s.t.dirs && 1 < |segs| && NonEmpty(segs)
    requires Walkable(s, d, segs, creating)
    requires var list := Entries(s.st, s.t, d);
      Finds(list, Name83(segs[0])) && e == list[StopAt(list, Name83(segs[0]), 0)]
    ensures NonEmpty(segs[1..]) && StartOf(e) as nat in s.t.dirs && Walkable(s, StartOf(e), segs[1..], creating)
    ensures WalkEnd(s, StartOf(e), segs[1..]) == WalkEnd(s, d, segs)
  {
    hide Shaped, ChainsTile, Entries, OwnersExist, FilesOk, StopAt, StartOf, IsDirectory, HasRoomFor, Name83;
    assert DirectoryOk(Entries(s.st, s.t, d), root, s.t, d);
    FoundIsHit(Entries(s.st, s.t, d), Name83(segs[0]));
    assert Front(segs)[1..] == Front(segs[1..]) && Front(segs)[0] == segs[0];
    assert Encode(Front(segs))[1..] == Encode(Front(segs[1..]));
  }

  /** A name missing on the way ends the walk nowhere. */
  lemma WalkBreaks(s: State, d: nat, segs: seq<seq<byte>>)
    requires 1 < |segs| && NonEmpty(segs) && !Finds(Entries(s.st, s.t, d), Name83(segs[0]))
    ensures WalkEnd(s, d, segs) == 0
  {
    hide Entries, StopAt, Name83;
    assert Front(segs)[0] == segs[0];
  }

  lemma StepAllowed(s: State, d: nat, segs: seq<seq<byte>>, creating: bool)
    requires segs != [] && NonEmpty(segs) && d != 0 && Walkable(s, d, segs, creating)
    ensures |segs| == 1 && creating ==> HasRoomFor(s, d, Name83(segs[0]))
  {
    hide HasRoomFor, Name83;
    if |segs| == 1 {
      assert Front(segs) == [];
    }
  }

  /** What one lookup of the walk settles. */
  lemma StepOutcome(root: nat, s: State, d: nat, segs: seq<seq<byte>>, creating: bool, info: NodeInfo)
    requires WellFormed(s.st, root, s.t) && d in s.t.dirs && segs != [] && NonEmpty(segs)
    requires Walkable(s, d, segs, creating)
    requires Shaped(s.st) && d in s.t.chains && IsChain(s.st.fat, s.t.chains[d]) && 0 < d < END_MIN
    requires |segs| == 1 && creating ==> HasRoomFor(s, d, Name83(segs[0]))
    requires info == ResolveIn(s, d, Name83(segs[0]), |segs| == 1 && creating)
    ensures |segs| == 1 || info.descriptorCluster == 0 ==> Yields(s, d, segs, creating, info)
    ensures |segs| > 1 && info.descriptorCluster != 0 ==>
      && NonEmpty(segs[1..]) && StartOf(info.node) as nat in s.t.dirs
      && Walkable(s, StartOf(info.node), segs[1..], creating)
      && WalkEnd(s, StartOf(info.node), segs[1..]) == WalkEnd(s, d, segs)
  {
    hide WellFormed, Shaped, Entries, StopAt, StartOf, IsDirectory, HasRoomFor, Name83, Walkable, WalksDirectories,
         CreationSlot;
    var list := Entries(s.st, s.t, d);
    DirectoryChain(root, s, d);
    if |segs| == 1 {
      assert Front(segs) == [];
    } else if Finds(list, Name83(segs[0])) {
      var k := StopAt(list, Name83(segs[0]), 0);
      FoundIsHit(list, Name83(segs[0]));
      WalkStep(root, s, d, segs, creating, list[k]);
      assert k / 16 < |s.t.chains[d]| && s.t.chains[d][k / 16] != 0;
    } else {
      WalkBreaks(s, d, segs);
    }
  }

  /** The entry was handed out by creation and not yet written: its name is still marked deleted. */
  predicate IsCreated(info: NodeInfo) {
    info.descriptorCluster != 0 && info.node.filename[0] == DELETED
  }

  /** What a successful walk hands to its caller: the entry found, or the slot to create it in. */
  lemma YieldedSlot(root: nat, s: State, d: nat, segs: seq<seq<byte>>, creating: bool, info: NodeInfo, x: nat,
                    name: seq<byte>)
    requires WellFormed(s.st, root, s.t) && d in s.t.dirs && segs != [] && NonEmpty(segs)
    requires Yields(s, d, segs, creating, info)
    requires x == WalkEnd(s, d, segs) && name == Name83(segs[|segs| - 1])
    ensures x == 0 ==> info.descriptorCluster == 0
    ensures x != 0 ==> var list := Entries(s.st, s.t, x);
      && x in s.t.dirs && (creating ==> HasRoomFor(s, x, name))
      && (info.descriptorCluster != 0 ==> 2 <= info.descriptorCluster < |s.st.fat| && info.descriptorOffset < 16)
      && if Finds(list, name) then
           && info.descriptorCluster != 0 && !IsCreated(info) && IsSlot(s.st, s.t, x, StopAt(list, name, 0))
           && info == SlotInfo(s, x, StopAt(list, name, 0))
         else if creating && !CreationRefused(s.st, list, name) then
           && 16 <= |list| && CreationSafe(list, name) && info.descriptorCluster != 0 && IsCreated(info)
           && IsSlot(s.st, s.t, x, CreationSlot(list, name)) && info == PickedSlot(s, x, name)
         else info.descriptorCluster == 0
  {
    hide WellFormed, Shaped, Entries, StopAt, StartOf, IsDirectory, Name83, WalkEnd, CreationSlot, CreationSafe,
         LastDeleted;
    if x != 0 {
      var list := Entries(s.st, s.t, x);
      DirectoryChain(root, s, x);
      FoundIsHit(list, name);
      var k := if Finds(list, name) then StopAt(list, name, 0)
               else if creating && !CreationRefused(s.st, list, name) then CreationSlot(list, name)
               else 0;
      DirectorySlot(root, s, x, k);
    }
  }

  /** The entry in slot (x, k) and where it lies. */
  ghost function SlotInfo(s: State, x: nat, k: nat): NodeInfo
    requires IsSlot(s.st, s.t, x, k)
  {
    NodeInfo(SlotCluster(s.t, x, k), k % 16, Entries(s.st, s.t, x)[k], x)
  }

  /** The name is that of a regular file in directory x. */
  ghost predicate NamesFile(s: State, x: nat, name: seq<byte>) {
    var list := Entries(s.st, s.t, x);
    Finds(list, name) && !IsDirectory(list[StopAt(list, name, 0)])
  }

  /** The entry a descriptor holds is that of the file of that name in directory x. */
  ghost predicate OnFile(s: State, x: nat, name: seq<byte>, info: NodeInfo) {
    var k := StopAt(Entries(s.st, s.t, x), name, 0);
    NamesFile(s, x, name) && IsSlot(s.st, s.t, x, k) && info == SlotInfo(s, x, k)
  }

  /** The slot creation picks, as it is handed to the caller: its name marked deleted, and nothing else changed. */
  ghost function PickedSlot(s: State, x: nat, name: seq<byte>): NodeInfo
    requires var list := Entries(s.st, s.t, x);
      16 <= |list| && CreationSafe(list, name) && IsSlot(s.st, s.t, x, CreationSlot(list, name))
  {
    var list := Entries(s.st, s.t, x);
    SlotInfo(s, x, CreationSlot(list, name)).(node := MarkedDeleted(list[CreationSlot(list, name)]))
  }

  /**
   * Creation on a full disk: no descriptor if the directory is full too, or the slot picked had the directory bit, or
   * else one on an entry that was never written.
   */
  ghost predicate OnUnwrittenEntry(s: State, x: nat, name: seq<byte>, got: bool, info: NodeInfo) {
    var list := Entries(s.st, s.t, x);
    && FirstFree(s.st.fat) == 0
    && if CreationRefused(s.st, list, name) then !got
       else
         && 16 <= |list| && CreationSafe(list, name) && IsSlot(s.st, s.t, x, CreationSlot(list, name))
         && if IsDirectory(list[CreationSlot(list, name)]) then !got else got && info == PickedSlot(s, x, name)
  }

  /**
   * What opening `name` in directory x makes of state s: a Create step if asked for, and a descriptor on the file if
   * and only if there was one, or it was to be created where nothing had its name and a cluster was free.
   */
  ghost predicate OpenOutcome(root: nat, s: State, s': State, x: nat, name: seq<byte>, creating: bool, got: bool,
                              info: NodeInfo) {
    && (if creating && x != 0 then Step(root, s, Create(x, name, false), s') else s' == s)
    && (x == 0 ==> !got)
    && (x != 0 ==>
         var list := Entries(s.st, s.t, x);
         var onFile := got && OnFile(s', x, name, info);
         && (onFile <==> NamesFile(s, x, name) || (creating && !Finds(list, name) && FirstFree(s.st.fat) != 0))
         && (!onFile ==> if creating && !Finds(list, name) then OnUnwrittenEntry(s, x, name, got, info) else !got))
  }

  /** Opening a name that is there. */
  lemma OpenedFound(root: nat, s: State, x: nat, name: seq<byte>, creating: bool, info: NodeInfo)
    requires WellFormed(s.st, root, s.t) && x in s.t.dirs && x != 0
    requires creating ==> Storable(name) && HasRoomFor(s, x, name)
    requires var list := Entries(s.st, s.t, x);
      && Finds(list, name) && IsSlot(s.st, s.t, x, StopAt(list, name, 0))
      && info == SlotInfo(s, x, StopAt(list, name, 0))
    ensures OpenOutcome(root, s, s, x, name, creating, !IsDirectory(info.node), info)
  {
    hide WellFormed, Step, Entries, StopAt, IsDirectory, IsSlot, Storable, HasRoomFor, CreationSafe;
    if creating {
      NoCreateIsStep(root, s, x, name, false);
    }
  }

  /** Opening a name that is not there, when nothing is created. */
  lemma OpenedMissing(root: nat, s: State, x: nat, name: seq<byte>, creating: bool, info: NodeInfo)
    requires WellFormed(s.st, root, s.t)
    requires x != 0 ==> var list := Entries(s.st, s.t, x);
      && x in s.t.dirs && !Finds(list, name)
      && (creating ==> Storable(name) && CreationRefused(s.st, list, name))
    ensures OpenOutcome(root, s, s, x, name, creating, false, info)
  {
    hide WellFormed, Step, Entries, StopAt, IsDirectory, IsSlot, Storable;
    if creating && x != 0 {
      NoCreateIsStep(root, s, x, name, false);
    }
  }

  /**
   * A file that opening had to create has the bytes of a new one: no attributes, no size, and times left as they
   * were.
   */
  ghost predicate OpenedFresh(s: State, s': State, x: nat, name: seq<byte>, info: NodeInfo) {
    var list, f := Entries(s.st, s.t, x), FirstFree(s.st.fat);
    x != 0 && !Finds(list, name) && f != 0 ==>
      && 16 <= |list| && CreationSafe(list, name)
      && FreshSlot(Render(info.node), Render(list[CreationSlot(list, name)]), name, f, false)
  }

  lemma CreatedIsOpenedFresh(root: nat, s: State, s': State, x: nat, name: seq<byte>, info: NodeInfo)
    requires WellFormed(s.st, root, s.t) && OpenOutcome(root, s, s', x, name, true, true, info)
    ensures OpenedFresh(s, s', x, name, info)
  {
    hide WellFormed, Step, Entries, StopAt, IsDirectory, IsSlot, CreationSafe, CreationSlot, FreshSlot, Render;
    if x != 0 && !Finds(Entries(s.st, s.t, x), name) && FirstFree(s.st.fat) != 0 {
      CreatedIsFound(root, s, x, name, false, s');
    }
  }

  /** Opening a name for which creation has been given a slot. */
  lemma OpenedCreated(root: nat, s: State, s': State, x: nat, name: seq<byte>, r: NodeInfo)
    requires x != 0 && Step(root, s, Create(x, name, false), s')
    requires var list := Entries(s.st, s.t, x);
      && !Finds(list, name) && 16 <= |list| && CreationSafe(list, name) && !CreationRefused(s.st, list, name)
      && IsSlot(s.st, s.t, x, CreationSlot(list, name))
      && if FirstFree(s.st.fat) != 0 then OnFile(s', x, name, r) && !IsDirectory(r.node)
         else s' == s && r == PickedSlot(s, x, name)
    ensures OpenOutcome(root, s, s', x, name, true, !IsDirectory(r.node), r)
  {
    hide Step, Entries, StopAt, IsDirectory, IsSlot, CreationSafe, CreationRefused, CreationSlot, MarkedDeleted, Finds;
    var list := Entries(s.st, s.t, x);
    MarkingKeepsKind(list[CreationSlot(list, name)]);
  }

  lemma ClaimKeepsShape(st: Store)
    requires Shaped(st)
    ensures Shaped(Claim(st, 0)) && |Claim(st, 0).fat| == |st.fat|
    ensures FirstFree(st.fat) != 0 ==> 2 <= FirstFree(st.fat) < |st.fat|
  {
    if FirstFree(st.fat) != 0 {
      ClaimStarts(st);
    }
  }

  lemma MarkingKeepsKind(e: Entry)
    ensures StartOf(MarkedDeleted(e)) == StartOf(e) && (IsDirectory(MarkedDeleted(e)) <==> IsDirectory(e))
  {
  }

  /** A path to create: only names in it, a slash, and a last name that does not start like a deleted entry. */
  predicate MayCreate(path: seq<byte>) {
    NamesOnly(path) && SLASH in path && LastName(path) != [] && LastName(path)[0] != DELETED
  }

  lemma CreationPath(path: seq<byte>)
    requires MayCreate(path) && 0 !in path
    ensures var segs := Segments(Relative(path));
      segs != [] && LastName(path) == segs[|segs| - 1] && Storable(Name83(segs[|segs| - 1]))
  {
    LastNameIsLastSegmentExactlyWithASlash(path);
    assert forall c :: c in LastName(path) ==> c in path;
    StorableExactlyWhen(LastName(path));
  }

  /**
   * The cluster mkdir fills with dot entries: the fresh one, or on a full disk whatever the slot it picked recorded.
   */
  ghost function DirectoryCluster(st: Store, slot: Entry): u32
    requires |st.fat| < END_MIN
  {
    if FirstFree(st.fat) == 0 then StartOf(slot) else FirstFree(st.fat)
  }

  /** That cluster is one of the volume's and free. */
  ghost predicate FillsFreeCluster(g: Geometry, st: Store, slot: Entry)
    requires |st.fat| < END_MIN
  {
    exists c: u32 :: 2 <= c < |st.fat| && st.fat[c] == 0 && SectorOf(g, DirectoryCluster(st, slot)) == SectorOf(g, c)
  }

  /**
   * mkdir does not check that allocation. Whatever the slot recorded, the sector it writes is that of a free cluster if
   * and only if the disk has one; on a full disk it lies in the FAT area for a start below 2, which is what an end slot
   * of zeros has, and belongs to a cluster in use for any other start on the volume.
   */
  lemma MakeDirFillsFreeClusterExactlyWhenThereIsOne(g: Geometry, im: Image, slot: Entry)
    requires Fits(g, im) && Shaped(Meaning(g, im))
    ensures var st := Meaning(g, im);
      var sector := SectorOf(g, DirectoryCluster(st, slot));
      && (FillsFreeCluster(g, st, slot) <==> FirstFree(st.fat) != 0)
      && (FirstFree(st.fat) == 0 && StartOf(slot) < 2 ==> g.fatOffset <= sector < g.dataOffset)
      && (FirstFree(st.fat) == 0 && 2 <= StartOf(slot) < |st.fat| ==>
           st.fat[StartOf(slot)] != 0 && sector == g.dataOffset + StartOf(slot) - 2)
  {
    var st := Meaning(g, im);
    var c := DirectoryCluster(st, slot);
    FirstFreeFromIsLeast(st.fat, 2);
    WhereSectorsLie(g, im, c);
    hide Meaning, StartOf, SectorOf, FirstFreeFrom;
    if FirstFree(st.fat) != 0 {
      assert st.fat[c] == 0;
    }
  }

  /** On a full volume, with an end slot of zeros, mkdir writes its dot entries over the primary FAT. */
  lemma {:induction false} FullVolumeMakeDirHitsTheFat()
    ensures var g, st, slot := GeometryOf(1, 1), FullVolume(), Slots(ZeroSector())[0];
      && Shaped(st) && FirstFree(st.fat) == 0 && IsEnd(slot) && !FillsFreeCluster(g, st, slot)
      && SectorOf(g, DirectoryCluster(st, slot)) == g.fatOffset
  {
    hide FullVolume, FirstFreeFrom, StartOf, Slots;
    var st := FullVolume();
    FirstFreeFromIsLeast(st.fat, 2);
    ZeroSectorSlots();
    ZeroSlotStartsNowhere();
    assert FirstFree(st.fat) == 0;
  }

  lemma ZeroSlotStartsNowhere()
    ensures StartOf(Slots(ZeroSector())[0]) == 0
  {
    var s := ZeroSector()[32 * 0..32 * 0 + 32];
    assert Slots(ZeroSector())[0] == Parse(s);
    assert s[20] == 0 && s[21] == 0 && s[26] == 0 && s[27] == 0;
  }

  lemma NewEntryIgnoresOldName(e: Entry, name: seq<byte>, f: u32, isDir: bool)
    requires |name| == 11
    ensures NewEntry(MarkedDeleted(e), name, f, isDir) == NewEntry(e, name, f, isDir)
  {
  }

  /** Filling a free slot of directory x is a Create step. */
  lemma CreateIsStep(root: nat, s: State, x: nat, name: seq<byte>, isDir: bool, s': State)
    requires WellFormed(s.st, root, s.t) && x in s.t.dirs && Storable(name)
    requires !Finds(Entries(s.st, s.t, x), name) && HasRoomFor(s, x, name) && FirstFree(s.st.fat) != 0
    requires var k := CreationSlot(Entries(s.st, s.t, x), name);
      && IsSlot(s.st, s.t, x, k)
      && s'.st == CreatedStore(s.st, CreatedInfo(s.st, s.t, x, k, name, isDir), isDir)
      && s'.t == CreatedCatalog(s.t, x, k, FirstFree(s.st.fat), isDir)
    ensures Step(root, s, Create(x, name, isDir), s') && WellFormed(s'.st, root, s'.t)
  {
    hide ChainsTile, OwnersExist, DirectoryOk, FilesOk, Entries, CreatedStore, CreationSafe, CreationSlot, StopAt,
         IsSlot;
    assert Step(root, s, Create(x, name, isDir), s');
    StepKeepsWellFormed(root, s, Create(x, name, isDir), s');
  }

  /** Finding the name, a refusal, or a full disk makes creation of a file a step that changes nothing. */
  lemma NoCreateIsStep(root: nat, s: State, x: nat, name: seq<byte>, isDir: bool)
    requires WellFormed(s.st, root, s.t) && x in s.t.dirs && Storable(name) && HasRoomFor(s, x, name)
    requires var list := Entries(s.st, s.t, x);
      Finds(list, name) || CreationRefused(s.st, list, name) || (FirstFree(s.st.fat) == 0 && !isDir)
    ensures Step(root, s, Create(x, name, isDir), s)
  {
    hide ChainsTile, OwnersExist, DirectoryOk, FilesOk, Entries, CreationSafe, StopAt;
  }

  lemma NoRemoveIsStep(root: nat, s: State, x: nat, name: seq<byte>)
    requires WellFormed(s.st, root, s.t)
    requires x in s.t.dirs ==> var list := Entries(s.st, s.t, x);
      Finds(list, name) ==> IsDirectory(list[StopAt(list, name, 0)])
    ensures x in s.t.dirs ==> Step(root, s, Remove(x, name), s)
  {
    hide ChainsTile, OwnersExist, DirectoryOk, FilesOk, Entries, StopAt;
  }

  lemma FileToRemove(root: nat, s: State, x: nat, name: seq<byte>, k: nat)
    requires WellFormed(s.st, root, s.t) && x in s.t.dirs
    requires var list := Entries(s.st, s.t, x); Finds(list, name) && k == StopAt(list, name, 0) && !IsDirectory(list[k])
    ensures HoldsFile(s.st, root, s.t, x, k) && Shaped(s.st) && IsHit(Entries(s.st, s.t, x)[k], name)
    ensures var h := StartOf(Entries(s.st, s.t, x)[k]);
      && h in s.t.chains && 2 <= h < |s.st.fat| && GoodGrown(Grown(s.st, s.t.chains[h])) && s.t.chains[h][0] == h
  {
    hide ChainsTile, OwnersExist, DirectoryOk, FilesOk, Entries, StopAt, IsDirectory, StartOf;
    DirectorySlot(root, s, x, k);
    FileFacts(s.st, root, s.t, x, k);
    ChainFacts(s.st, s.t, StartOf(Entries(s.st, s.t, x)[k]));
  }

  lemma EntryKeepsLinks(st: Store, info: NodeInfo)
    requires Shaped(st) && info.descriptorCluster < |st.data| && info.descriptorOffset < 16
    ensures Shaped(WithEntry(st, info)) && WithEntry(st, info).fat == st.fat
  {
  }

  lemma RemoveIsStep(root: nat, s: State, x: nat, name: seq<byte>, s': State)
    requires WellFormed(s.st, root, s.t) && x in s.t.dirs
    requires var list := Entries(s.st, s.t, x);
      var k := StopAt(list, name, 0);
      && Finds(list, name) && !IsDirectory(list[k]) && IsSlot(s.st, s.t, x, k) && StartOf(list[k]) < |s.st.fat|
      && s'.st == RemovedStore(s.st, RemovedInfo(s.st, s.t, x, k)) && s'.t == RemovedCatalog(s.t, StartOf(list[k]))
    ensures Step(root, s, Remove(x, name), s') && WellFormed(s'.st, root, s'.t)
  {
    hide ChainsTile, OwnersExist, DirectoryOk, FilesOk, Entries, StopAt, IsDirectory, StartOf, RemovedStore, IsSlot;
    StepKeepsWellFormed(root, s, Remove(x, name), s');
  }

  lemma OpenFileFacts(root: nat, s: State, x: nat, k: nat, f: OpenFile)
    requires WellFormed(s.st, root, s.t) && x in s.t.dirs && IsSlot(s.st, s.t, x, k)
    requires Live(Entries(s.st, s.t, x)[k]) && !IsDirectory(Entries(s.st, s.t, x)[k])
    requires StartOf(Entries(s.st, s.t, x)[k]) in s.t.chains
    requires f == FileOf(s.st, s.t, Entries(s.st, s.t, x)[k], f.offset)
    ensures GoodFile(f) && GoodGrown(f.g) && f.g.chain[0] == StartOf(Entries(s.st, s.t, x)[k])
  {
    hide ChainsTile, OwnersExist, DirectoryOk, FilesOk, Entries, IsDirectory, StartOf, Live, GoodFile, IsSlot;
    SlotInRange(s.st, s.t, x, k);
    FileFacts(s.st, root, s.t, x, k);
    ChainFacts(s.st, s.t, StartOf(Entries(s.st, s.t, x)[k]));
    PositionIsFree(FileOf(s.st, s.t, Entries(s.st, s.t, x)[k], 0), f);
  }

  lemma WriteCallIs(f: OpenFile, d: seq<byte>)
    requires GoodGrown(f.g)
    ensures var r := Written(f.g, f.offset, d);
      var n := Reported(|r.chain|, f.offset, |d|);
      WriteCall(f, d) == (OpenFile(r, if f.size > f.offset + n then f.size else f.offset + n, f.offset + n), n)
  {
    hide Written, Reported;
  }

  /**
   * A write through a descriptor that stands on slot (x, k) is a Write step, and the descriptor stands there after
   * it.
   */
  lemma WriteIsStep(root: nat, s: State, x: nat, k: nat, f: OpenFile, bytes: seq<byte>, info: NodeInfo, s': State)
    requires WellFormed(s.st, root, s.t) && x in s.t.dirs && IsSlot(s.st, s.t, x, k)
    requires Live(Entries(s.st, s.t, x)[k]) && !IsDirectory(Entries(s.st, s.t, x)[k])
    requires StartOf(Entries(s.st, s.t, x)[k]) in s.t.chains
    requires f == FileOf(s.st, s.t, Entries(s.st, s.t, x)[k], f.offset)
    requires GoodGrown(f.g) && f.offset + |bytes| < 0x8000_0000 && Reachable(f, f.offset)
    requires WriteCall(f, bytes).0.size < 0x1_0000_0000
    requires info == SlotInfo(s, x, k).(node := WithSize(Entries(s.st, s.t, x)[k], WriteCall(f, bytes).0.size))
    requires |WriteCall(f, bytes).0.g.st.data| == |s.st.data| && s'.st == WithEntry(WriteCall(f, bytes).0.g.st, info)
    requires s'.t == WrittenCatalog(s.t, StartOf(Entries(s.st, s.t, x)[k]), WriteCall(f, bytes).0.g.chain)
    ensures Step(root, s, Write(x, Entries(s.st, s.t, x)[k].filename, f.offset, bytes), s')
    ensures WellFormed(s'.st, root, s'.t) && x in s'.t.dirs && IsSlot(s'.st, s'.t, x, k) && info == SlotInfo(s', x, k)
    ensures Live(info.node) && !IsDirectory(info.node) && StartOf(info.node) in s'.t.chains
    ensures k < |Entries(s'.st, s'.t, x)| && Entries(s'.st, s'.t, x)[k] == info.node
  {
    hide ChainsTile, OwnersExist, FilesOk, Entries, IsDirectory, StartOf, Live, IsSlot, StopAt, WriteCall, WithEntry,
         Reachable, Tidy, UniqueNames, Dotted, EntriesStartChains, Owned;
    SlotInRange(s.st, s.t, x, k);
    var list := Entries(s.st, s.t, x);
    var name := list[k].filename;
    assert DirectoryOk(list, root, s.t, x);
    SearchFindsTheEntry(list, name, k);
    SlotInfoInRange(s, x, k);
    assert Step(root, s, Write(x, name, f.offset, bytes), s');
    StepKeepsWellFormed(root, s, Write(x, name, f.offset, bytes), s');
    var f' := WriteCall(f, bytes).0;
    FileOpIsTransition(root, s, Write(x, name, f.offset, bytes), s');
    FileTransitionKeepsDirectory(s.st, root, s.t, x, k, f, f', s'.st, s'.t, x);
    ResizedKeepsKind(list[k], f'.size);
    FileTransitionFacts(s.st, root, s.t, x, k, f, f', s'.st, s'.t);
    DirectorySlot(root, s', x, k);
    SlotInRange(s'.st, s'.t, x, k);
  }

  /** So is a read, from any position, and it leaves the entry as it was. */
  lemma ReadIsStep(root: nat, s: State, x: nat, k: nat, f: OpenFile, s': State)
    requires WellFormed(s.st, root, s.t) && x in s.t.dirs && IsSlot(s.st, s.t, x, k)
    requires Live(Entries(s.st, s.t, x)[k]) && !IsDirectory(Entries(s.st, s.t, x)[k])
    requires StartOf(Entries(s.st, s.t, x)[k]) in s.t.chains
    requires f == FileOf(s.st, s.t, Entries(s.st, s.t, x)[k], f.offset)
    requires GoodGrown(f.g) && f.offset < 0x8000_0000 && s'.st == ReadCall(f).g.st
    requires s'.t == WrittenCatalog(s.t, StartOf(Entries(s.st, s.t, x)[k]), ReadCall(f).g.chain)
    ensures Step(root, s, Read(x, Entries(s.st, s.t, x)[k].filename, f.offset), s')
    ensures WellFormed(s'.st, root, s'.t) && x in s'.t.dirs && IsSlot(s'.st, s'.t, x, k)
    ensures SlotInfo(s', x, k) == SlotInfo(s, x, k) && StartOf(Entries(s.st, s.t, x)[k]) in s'.t.chains
    ensures k < |Entries(s'.st, s'.t, x)| && Entries(s'.st, s'.t, x)[k] == Entries(s.st, s.t, x)[k]
    ensures ReadCall(f).g == f.g ==> s' == s
  {
    hide ChainsTile, OwnersExist, FilesOk, Entries, IsDirectory, StartOf, Live, IsSlot, StopAt, Grow, Tidy, UniqueNames,
         Dotted, EntriesStartChains, Owned;
    SlotInRange(s.st, s.t, x, k);
    var list := Entries(s.st, s.t, x);
    var name := list[k].filename;
    assert DirectoryOk(list, root, s.t, x);
    SearchFindsTheEntry(list, name, k);
    assert Step(root, s, Read(x, name, f.offset), s');
    StepKeepsWellFormed(root, s, Read(x, name, f.offset), s');
    ReadIsSilent(root, s, x, name, f.offset, s');
    DirectorySlot(root, s', x, k);
    SameCluster(s, s', x, k);
    SameChainSameCatalog(s.t, StartOf(list[k]), s.st);
  }

  lemma SameChainSameCatalog(t: Catalog, h: nat, st: Store)
    requires ChainsTile(st, t) && h in t.chains
    ensures WrittenCatalog(t, h, t.chains[h]) == t
  {
    MembersAreHome(t, h);
    assert t.home + (map c | c in t.chains[h] :: h) == t.home;
  }

  lemma SameCluster(s: State, s': State, x: nat, k: nat)
    requires IsSlot(s.st, s.t, x, k) && IsSlot(s'.st, s'.t, x, k) && s'.t.chains[x] == s.t.chains[x]
    requires Entries(s'.st, s'.t, x) == Entries(s.st, s.t, x)
    ensures SlotInfo(s', x, k) == SlotInfo(s, x, k)
  {
  }

  lemma SlotInfoInRange(s: State, x: nat, k: nat)
    requires IsSlot(s.st, s.t, x, k)
    ensures 2 <= SlotInfo(s, x, k).descriptorCluster < |s.st.fat| == |s.st.data|
    ensures SlotInfo(s, x, k).descriptorOffset < 16
    ensures k < |Entries(s.st, s.t, x)| && SlotInfo(s, x, k).node == Entries(s.st, s.t, x)[k]
  {
  }

  /** The rest of a walk ends where the whole walk does, with the same last name. */
  ghost predicate Walking(s: State, d: nat, segs: seq<seq<byte>>, d0: nat, segs0: seq<seq<byte>>, creating: bool) {
    && d in s.t.dirs && segs != [] && NonEmpty(segs) && segs0 != [] && NonEmpty(segs0)
    && Walkable(s, d, segs, creating)
    && WalkEnd(s, d, segs) == WalkEnd(s, d0, segs0)
    && segs[|segs| - 1] == segs0[|segs0| - 1]
  }

  lemma MayLookUp(root: nat, s: State, d: nat, segs: seq<seq<byte>>, d0: nat, segs0: seq<seq<byte>>, creating: bool)
    requires WellFormed(s.st, root, s.t) && Walking(s, d, segs, d0, segs0, creating)
    ensures d in s.t.dirs && 0 < d && segs0 != []
    ensures |segs| == 1 && creating ==> HasRoomFor(s, d, Name83(segs[0]))
  {
    hide WellFormed, Walkable, WalkEnd, HasRoomFor, Name83;
    DirectoryChain(root, s, d);
    StepAllowed(s, d, segs, creating);
  }

  lemma WalkBegins(s: State, d0: nat, path: seq<byte>, creating: bool)
    requires Segments(path) != [] ==> Walkable(s, d0, Segments(path), creating)
    requires d0 in s.t.dirs
    ensures Segments(path) != [] ==> Walking(s, d0, Segments(path), d0, Segments(path), creating)
    ensures Segments(path) == [] <==> Head(path) == []
  {
    hide Walkable, WalkEnd;
  }

  /** What one lookup makes of the walk: it is over, or it goes on from the directory found. */
  lemma WalkOnce(root: nat, s: State, d: nat, segs: seq<seq<byte>>, d0: nat, segs0: seq<seq<byte>>, creating: bool,
                 info: NodeInfo)
    requires WellFormed(s.st, root, s.t) && Walking(s, d, segs, d0, segs0, creating)
    requires Shaped(s.st) && d in s.t.chains && IsChain(s.st.fat, s.t.chains[d]) && 0 < d < END_MIN
    requires |segs| == 1 && creating ==> HasRoomFor(s, d, Name83(segs[0]))
    requires info == ResolveIn(s, d, Name83(segs[0]), |segs| == 1 && creating)
    ensures |segs| == 1 || info.descriptorCluster == 0 ==> Yields(s, d0, segs0, creating, info)
    ensures |segs| > 1 && info.descriptorCluster != 0 ==> Walking(s, StartOf(info.node), segs[1..], d0, segs0, creating)
  {
    hide WellFormed, Shaped, Walkable, WalkEnd, ResolveIn, HasRoomFor, Name83, IsChain, StartOf;
    StepOutcome(root, s, d, segs, creating, info);
  }

  lemma SegmentsUnfold(rem: seq<byte>)
    requires Head(rem) != []
    ensures var segs := Segments(rem);
      && segs != [] && segs[0] == Head(rem) && segs[1..] == Segments(Tail(rem))
      && (|segs| == 1 <==> Head(Tail(rem)) == [])
  {
  }

  class FileSystem {
    const vol: Volume
    ghost var catalog: Catalog

    ghost predicate Valid()
      reads this, vol, vol.dev, vol.buffer
    {
      vol.Valid() && vol.dev.reliable && WellFormed(vol.store, vol.rootCluster, catalog)
    }

    ghost function Now(): State
      reads this, vol
    {
      State(vol.store, catalog)
    }

    function WalkStart(path: seq<byte>, base: NodeInfo): u32 {
      if IsAbsolute(path) || base.descriptorCluster == 0 then vol.rootCluster else StartOf(base.node)
    }

    /** The directory the last name of a path is looked up in, or 0, and that name as it is stored. */
    ghost function Reached(s: State, path: seq<byte>, base: NodeInfo): nat
      requires Segments(Relative(path)) != []
    {
      WalkEnd(s, WalkStart(path, base), Segments(Relative(path)))
    }

    static ghost function Sought(path: seq<byte>): (name: seq<byte>)
      requires Segments(Relative(path)) != []
      ensures |name| == 11
    {
      var segs := Segments(Relative(path));
      Name83(segs[|segs| - 1])
    }

    /** A path that begins with a slash is walked from the root, whatever directory the caller is in. */
    lemma AbsoluteWalksFromRoot(s: State, path: seq<byte>, base: NodeInfo)
      requires path != [] && path[0] == 0x2F
      ensures WalkStart(path, base) == vol.rootCluster
      ensures Segments(Relative(path)) == Segments(path[1..])
      ensures var segs := Segments(path[1..]);
        segs != [] ==>
          && Reached(s, path, base) == Follow(s, vol.rootCluster, Encode(segs[..|segs| - 1]))
          && Sought(path) == Name83(segs[|segs| - 1])
    {
    }

    /** Any other is walked from that directory, or from the root if there is none. */
    lemma RelativeWalksFromBase(s: State, path: seq<byte>, base: NodeInfo)
      requires path == [] || path[0] != 0x2F
      ensures WalkStart(path, base) == if base.descriptorCluster == 0 then vol.rootCluster else StartOf(base.node)
      ensures Segments(Relative(path)) == Segments(path)
      ensures var segs := Segments(path);
        segs != [] ==>
          && Reached(s, path, base) == Follow(s, WalkStart(path, base), Encode(segs[..|segs| - 1]))
          && Sought(path) == Name83(segs[|segs| - 1])
    {
    }

    /** What is created at an absolute path, from one directory, is found at that path from any other. */
    lemma CreatedIsFoundFromAnywhere(s: State, s': State, path: seq<byte>, base: NodeInfo, other: NodeInfo, isDir: bool)
      requires WellFormed(s.st, vol.rootCluster, s.t) && path != [] && path[0] == 0x2F && Segments(path[1..]) != []
      requires Segments(Relative(path)) != [] && Reached(s, path, base) != 0
      requires Step(vol.rootCluster, s, Create(Reached(s, path, base), Sought(path), isDir), s')
      requires !Finds(Entries(s.st, s.t, Reached(s, path, base)), Sought(path)) && FirstFree(s.st.fat) != 0
      ensures Reached(s', path, other) == Reached(s, path, base)
      ensures var list := Entries(s'.st, s'.t, Reached(s', path, other));
        && Finds(list, Sought(path))
        && var e := list[StopAt(list, Sought(path), 0)];
          e.size == 0 && StartOf(e) == FirstFree(s.st.fat) && (IsDirectory(e) <==> isDir)
    {
      hide WellFormed, Step, Entries, StopAt, IsDirectory, StartOf, Follow, Encode, Segments, Name83, Finds,
           FirstFreeFrom;
      AbsoluteWalksFromRoot(s, path, base);
      AbsoluteWalksFromRoot(s', path, other);
      CreatedPathResolves(vol.rootCluster, s, Encode(Front(Segments(path[1..]))), Sought(path), isDir, s');
    }

    /** Mounts a volume that is well formed under some catalog. */
    constructor (vol: Volume, ghost catalog: Catalog)
      requires vol.Valid() && vol.dev.reliable && WellFormed(vol.store, vol.rootCluster, catalog)
      ensures Valid() && this.vol == vol && this.catalog == catalog
    {
      this.vol := vol;
      this.catalog := catalog;
    }

    /**
     * Looks one name up in the chain at `start`: a directory's, or a regular file's, whose bytes are then taken for
     * entries as they are.
     */
    method Lookup(segment: seq<byte>, start: u32, creating: bool) returns (info: NodeInfo)
      requires Valid() && segment != [] && (start as nat in catalog.dirs || start as nat in catalog.chains)
      requires creating ==> HasRoomFor(Now(), start, Name83(segment))
      modifies vol, vol.dev, vol.buffer
      ensures Valid() && Now() == old(Now()) && Shaped(vol.store)
      ensures start as nat in catalog.chains && IsChain(vol.store.fat, catalog.chains[start]) && start < END_MIN
      ensures info == ResolveIn(Now(), start, Name83(segment), creating)
    {
      hide WellFormed, Sound, Entries, Name83, CreationSafe, CreationSlot, StopAt, Listing, IsChain, Shaped;
      DirectoryChain(vol.rootCluster, Now(), start);
      info := FindNode(vol, segment, start, creating, catalog.chains[start]);
    }

    /** Walks a path, name by name, from the root or from the directory `base`. */
    method ResolvePath(path: seq<byte>, base: NodeInfo, creating: bool) returns (info: NodeInfo)
      requires Valid() && 0 !in path && WalkStart(path, base) as nat in catalog.dirs
      requires Segments(Relative(path)) != [] ==>
        Walkable(Now(), WalkStart(path, base), Segments(Relative(path)), creating)
      modifies vol, vol.dev, vol.buffer
      ensures Valid() && Now() == old(Now())
      ensures if Segments(Relative(path)) == [] then info == if IsAbsolute(path) then Nowhere() else base
              else Yields(Now(), WalkStart(path, base), Segments(Relative(path)), creating, info)
    {
      hide WellFormed, Sound, Entries, Name83, HasRoomFor, StopAt, Shaped, IsChain, Walkable, WalkEnd, ResolveIn,
           StartOf, Encode, Yields, Walking, Segments, Head, Tail, StringAt;
      var tok := new Tokenizer(path, if IsAbsolute(path) then 1 else 0);
      ghost var rem := Relative(path);
      var token := tok.Next();
      var name := StringAt(tok.buffer[..], token);
      info := if IsAbsolute(path) then Nowhere() else base;
      ghost var s, d0 := Now(), WalkStart(path, base);
      ghost var segs0 := Segments(Relative(path));
      WalkBegins(s, d0, Relative(path), creating);
      while name != []
        invariant Valid() && Now() == s && tok.Valid() && fresh(tok) && fresh(tok.buffer)
        invariant name == Head(rem) && tok.Rest() == Tail(rem)
        invariant name != [] ==> Walking(s, if info.descriptorCluster == 0 then vol.rootCluster else StartOf(info.node),
                                         Segments(rem), d0, segs0, creating)
        invariant name == [] && segs0 != [] ==> Yields(s, d0, segs0, creating, info)
        invariant name == [] && segs0 == [] ==> info == if IsAbsolute(path) then Nowhere() else base
        decreases |rem|
      {
        token := tok.Next();
        var following := StringAt(tok.buffer[..], token);
        var start: u32 := if info.descriptorCluster == 0 then vol.rootCluster else StartOf(info.node);
        ghost var segs := Segments(rem);
        SegmentsUnfold(rem);
        MayLookUp(vol.rootCluster, s, start, segs, d0, segs0, creating);
        info := Lookup(name, start, following == [] && creating);
        WalkOnce(vol.rootCluster, s, start, segs, d0, segs0, creating, info);
        name := following;
        rem := Tail(rem);
        if info.descriptorCluster == 0 {
          break;
        }
      }
    }

    /** Fills the slot a walk picked: a fresh cluster, then the entry. On a full disk it does nothing. */
    method InitializeNode(info: NodeInfo, filename: seq<byte>, isDir: bool) returns (r: NodeInfo)
      requires vol.Valid() && vol.dev.reliable && Shaped(vol.store) && IsCreated(info) && filename != []
      requires 2 <= info.descriptorCluster < |vol.store.fat| && info.descriptorOffset < 16
      modifies vol, vol.dev, vol.buffer
      ensures vol.Valid()
      ensures var f := FirstFree(old(vol.store).fat);
        if f == 0 then vol.store == old(vol.store) && r == info
        else
          && r == info.(node := NewEntry(info.node, Name83(filename), f, isDir))
          && FreshSlot(Render(r.node), Render(info.node), Name83(filename), f, isDir)
          && vol.store == WithEntry(Claim(old(vol.store), 0), r)
    {
      hide Sound, Name83, Splice, Render, FreshSlot, NewEntry, IsPath;
      var first := vol.AllocateCluster(0);
      if first == 0 {
        return info;
      }
      var name := new byte[11];
      Make8Point3Name(filename, name);
      r := info.(node := NewEntry(info.node, name[..], first, isDir));
      NewEntryIsFresh(info.node, name[..], first, isDir);
      var ok := SaveDescriptor(vol, r);
      ok := vol.SaveCurrentFat();
    }

    /** A descriptor stands on slot (x, k): its entry in memory is the one on disk. */
    ghost predicate StandsOn(h: FileHandle, x: nat, k: nat)
      reads this, vol, h
    {
      IsSlot(vol.store, catalog, x, k) && h.info == SlotInfo(Now(), x, k)
    }

    /** Opens the file a path names, creating it first if asked to and if it is not there. */
    method OpenFile(path: seq<byte>, base: NodeInfo, creating: bool) returns (h: FileHandle?)
      requires Valid() && 0 !in path && WalkStart(path, base) as nat in catalog.dirs && Segments(Relative(path)) != []
      requires Walkable(Now(), WalkStart(path, base), Segments(Relative(path)), creating)
      requires creating ==> MayCreate(path)
      modifies this, vol, vol.dev, vol.buffer
      ensures Valid()
      ensures OpenOutcome(vol.rootCluster, old(Now()), Now(), Reached(old(Now()), path, base), Sought(path), creating,
                          h != null, if h == null then Nowhere() else h.info)
      ensures h != null ==> fresh(h) && h.offset == 0
      ensures creating ==> OpenedFresh(old(Now()), Now(), Reached(old(Now()), path, base), Sought(path),
                                       if h == null then Nowhere() else h.info)
    {
      hide WellFormed, Sound, Entries, Name83, HasRoomFor, StopAt, Shaped, IsChain, Walkable, WalkEnd, StartOf,
           IsDirectory, Encode, Yields, Step, CreationSafe, CreationSlot, CreatedStore, IsSlot, WalksDirectories,
           NewEntry, Storable, IsCreated, Finds, CreationRefused, MarkedDeleted, LastName, NamesOnly, FirstFreeFrom;
      ghost var s, d0 := Now(), WalkStart(path, base);
      ghost var segs := Segments(Relative(path));
      ghost var x, name := WalkEnd(s, d0, segs), Name83(segs[|segs| - 1]);
      if creating {
        CreationPath(path);
      }
      var info := ResolvePath(path, base, creating);
      YieldedSlot(vol.rootCluster, s, d0, segs, creating, info, x, name);
      if info.descriptorCluster == 0 {
        OpenedMissing(vol.rootCluster, s, x, name, creating, Nowhere());
        return null;
      }
      if creating && IsCreated(info) {
        var filename := FilenameFromPath(path);
        info := CreateAt(info, filename, false, x);
        OpenedCreated(vol.rootCluster, s, Now(), x, name, info);
      } else {
        OpenedFound(vol.rootCluster, s, x, name, creating, info);
      }
      if IsDirectory(info.node) {
        return null;
      }
      if creating {
        CreatedIsOpenedFresh(vol.rootCluster, s, Now(), x, name, info);
      }
      h := new FileHandle(info);
    }

    /**
     * A full disk and a name to make a directory of: the entry is not written, but the dot entries are, over whatever
     * the slot picked for it recorded as its start, c. A cluster of the volume has new contents; any other number
     * strikes a sector the volume's meaning does not account for.
     */
    ghost predicate StrayDirectory(s: State, c: u32, x: u32)
      reads this, vol, vol.dev, vol.buffer
    {
      var dots := DotSector(c, x);
      && catalog == s.t
      && if 2 <= c < |s.st.fat| == |s.st.data| then vol.Valid() && vol.store == Store(s.st.fat, s.st.data[c := dots])
         else vol.store == s.st && vol.Struck(SectorOf(vol.geometry, c), dots)
    }

    /** What making `name` in directory x makes of state s. */
    ghost predicate DirectoryMade(s: State, x: nat, name: seq<byte>, error: int)
      reads this, vol, vol.dev, vol.buffer
    {
      var list := Entries(s.st, s.t, x);
      if x == 0 || (!Finds(list, name) && CreationRefused(s.st, list, name)) then error == 1 && Valid() && Now() == s
      else
        && error == 0
        && if Finds(list, name) || FirstFree(s.st.fat) != 0 then
             Valid() && Step(vol.rootCluster, s, Create(x, name, true), Now())
           else
             && 16 <= |list| && CreationSafe(list, name) && x < END_MIN
             && StrayDirectory(s, StartOf(list[CreationSlot(list, name)]), x)
    }

    /**
     * Makes the directory a path names, unless something of that name is there. Returns 1 when the way does not exist,
     * or creation is refused.
     */
    method MakeDir(path: seq<byte>, base: NodeInfo) returns (error: int)
      requires Valid() && 0 !in path && WalkStart(path, base) as nat in catalog.dirs && Segments(Relative(path)) != []
      requires Walkable(Now(), WalkStart(path, base), Segments(Relative(path)), true)
      requires MayCreate(path)
      modifies this, vol, vol.dev, vol.buffer
      ensures DirectoryMade(old(Now()), Reached(old(Now()), path, base), Sought(path), error)
    {
      hide WellFormed, Sound, Entries, Name83, HasRoomFor, StopAt, Shaped, IsChain, Walkable, WalkEnd, StartOf,
           IsDirectory, Encode, Yields, Step, CreationSafe, CreationSlot, CreatedStore, IsSlot, WalksDirectories,
           NewEntry, Storable, IsCreated, Finds, CreationRefused, StrayDirectory, MarkedDeleted, LastName, NamesOnly,
           FirstFreeFrom;
      ghost var s, d0 := Now(), WalkStart(path, base);
      ghost var segs := Segments(Relative(path));
      ghost var x, name := WalkEnd(s, d0, segs), Name83(segs[|segs| - 1]);
      CreationPath(path);
      var info := ResolvePath(path, base, true);
      YieldedSlot(vol.rootCluster, s, d0, segs, true, info, x, name);
      if info.descriptorCluster == 0 {
        return 1;
      }
      if IsCreated(info) {
        var filename := FilenameFromPath(path);
        MarkingKeepsKind(Entries(s.st, s.t, x)[CreationSlot(Entries(s.st, s.t, x), name)]);
        var _ := CreateAt(info, filename, true, x);
      } else {
        NoCreateIsStep(vol.rootCluster, s, x, name, true);
      }
      return 0;
    }

    /** Removes the file a path names: marks its entry deleted and frees its chain. Directories are refused. */
    method RemoveFile(path: seq<byte>, base: NodeInfo) returns (error: int)
      requires Valid() && 0 !in path && WalkStart(path, base) as nat in catalog.dirs && Segments(Relative(path)) != []
      requires Walkable(Now(), WalkStart(path, base), Segments(Relative(path)), false)
      modifies this, vol, vol.dev, vol.buffer
      ensures Valid()
      ensures var x, name := Reached(old(Now()), path, base), Sought(path);
        if x == 0 then error == 1 && Now() == old(Now())
        else
          && Step(vol.rootCluster, old(Now()), Remove(x, name), Now())
          && (error == 0 <==> NamesFile(old(Now()), x, name))
    {
      hide WellFormed, Sound, Entries, Name83, HasRoomFor, StopAt, Shaped, IsChain, Walkable, WalkEnd, StartOf,
           IsDirectory, Encode, Yields, IsSlot, WalksDirectories, IsCreated, Release, WithEntry;
      ghost var s, d0 := Now(), WalkStart(path, base);
      ghost var segs := Segments(Relative(path));
      ghost var x, name := WalkEnd(s, d0, segs), Name83(segs[|segs| - 1]);
      var info := ResolvePath(path, base, false);
      YieldedSlot(vol.rootCluster, s, d0, segs, false, info, x, name);
      if info.descriptorCluster == 0 {
        if x != 0 {
          NoRemoveIsStep(vol.rootCluster, s, x, name);
        }
        return 1;
      }
      if IsDirectory(info.node) {
        NoRemoveIsStep(vol.rootCluster, s, x, name);
        return 1;
      }
      ghost var list := Entries(s.st, s.t, x);
      ghost var k := StopAt(list, name, 0);
      FileToRemove(vol.rootCluster, s, x, name, k);
      DeletedKeepsStart(info.node);
      var deleted := info.(node := MarkedDeleted(info.node));
      var _ := SaveDescriptor(vol, deleted);
      EntryKeepsLinks(s.st, deleted);
      var _ := vol.DeleteFatChain(StartOf(deleted.node));
      catalog := RemovedCatalog(catalog, StartOf(list[k]));
      RemoveIsStep(vol.rootCluster, s, x, name, Now());
      return 0;
    }

    /** A descriptor stands on a regular file. */
    ghost predicate IsOpen(h: FileHandle, x: nat, k: nat)
      reads this, vol, h
    {
      && x in catalog.dirs && StandsOn(h, x, k) && k < |Entries(vol.store, catalog, x)|
      && Live(Entries(vol.store, catalog, x)[k]) && !IsDirectory(Entries(vol.store, catalog, x)[k])
      && StartOf(Entries(vol.store, catalog, x)[k]) in catalog.chains
    }

    /** A descriptor that opening has put on a file can be written and read through. */
    lemma OpenedCanBeUsed(h: FileHandle, x: nat, name: seq<byte>)
      requires Valid() && x in catalog.dirs && OnFile(Now(), x, name, h.info)
      ensures IsOpen(h, x, StopAt(Entries(vol.store, catalog, x), name, 0))
    {
      hide ChainsTile, OwnersExist, FilesOk, Entries, StopAt, IsDirectory, StartOf, IsSlot, Tidy, UniqueNames, Dotted,
           Owned, Sound;
      FoundIsHit(Entries(vol.store, catalog, x), name);
      assert DirectoryOk(Entries(vol.store, catalog, x), vol.rootCluster, catalog, x);
    }

    /** The file as the descriptor sees it. */
    ghost function View(h: FileHandle): OpenFile
      reads this, vol, h
      requires StartOf(h.info.node) in catalog.chains
    {
      FileLaws.OpenFile(Grown(vol.store, catalog.chains[StartOf(h.info.node)]), h.info.node.size, h.offset)
    }

    /**
     * Writes at the descriptor's position and moves it on by the count returned. From a reachable position that is a
     * Write step; from any other the clusters and the entry are still those of WriteCall, whose size exceeds the chain.
     */
    method WriteFile(h: FileHandle, io: array<byte>, size: nat, ghost x: nat, ghost k: nat) returns (n: nat)
      requires Valid() && IsOpen(h, x, k) && io as object != vol.buffer && size <= io.Length
      requires h.offset + size < 0x8000_0000
      modifies this, vol, vol.dev, vol.buffer, io, h
      ensures vol.Valid() && GoodGrown(old(View(h)).g) && h.offset == old(h.offset) + n
      ensures var (f, m) := WriteCall(old(View(h)), io[..size]);
        && n == m && f.size < 0x1_0000_0000
        && h.info == old(h.info).(node := WithSize(old(h.info.node), f.size))
        && h.info.descriptorCluster < |f.g.st.data| && h.info.descriptorOffset < 16
        && vol.store == WithEntry(f.g.st, h.info)
      ensures Render(h.info.node)[..28] == old(Render(h.info.node)[..28])
      ensures h.info.node.size == if old(h.info.node.size) > h.offset then old(h.info.node.size) else h.offset
      ensures var e := old(Entries(vol.store, catalog, x)[k]);
        Reachable(old(View(h)), old(h.offset)) ==>
          && Valid() && IsOpen(h, x, k)
          && Step(vol.rootCluster, old(Now()), Write(x, e.filename, old(h.offset), io[..size]), Now())
    {
      hide WellFormed, Sound, Entries, StopAt, StartOf, IsDirectory, IsSlot, WithEntry, Written, Reported, WriteCall,
           Reachable;
      ghost var s := Now();
      SlotInfoInRange(s, x, k);
      ghost var e, f := Entries(s.st, s.t, x)[k], View(h);
      OpenFileFacts(vol.rootCluster, s, x, k, f);
      n := WriteBytesInFile(vol, h, io, size, catalog.chains[StartOf(h.info.node)]);
      h.offset := h.offset + n;
      catalog := WrittenCatalog(catalog, StartOf(e), WriteCall(f, io[..size]).0.g.chain);
      WriteCallIs(f, io[..size]);
      SizeBytes(e, WriteCall(f, io[..size]).0.size);
      if Reachable(f, f.offset) {
        WriteIsStep(vol.rootCluster, s, x, k, f, io[..size], h.info, Now());
      }
    }

    /**
     * Reads at the descriptor's position and moves it on by the count returned. That is a Read step: within the file it
     * delivers the slice of its text and changes nothing; past its end the seek may claim clusters, and the count is
     * what Claimed says.
     */
    method ReadFile(h: FileHandle, io: array<byte>, size: nat, ghost x: nat, ghost k: nat) returns (n: nat)
      requires Valid() && IsOpen(h, x, k) && io as object != vol.buffer && size <= io.Length
      requires h.offset + size < 0x8000_0000
      modifies this, vol, vol.dev, vol.buffer, io, h
      ensures Valid() && IsOpen(h, x, k) && h.info == old(h.info) && h.offset == old(h.offset) + n
      ensures var e := old(Entries(vol.store, catalog, x)[k]);
        Step(vol.rootCluster, old(Now()), Read(x, e.filename, old(h.offset)), Now())
      ensures ReadOutcome(old(View(h)), size, old(io[..]), io[..], n)
      ensures old(h.offset) <= h.info.node.size ==>
        Now() == old(Now()) && ReadsSlice(old(View(h)), size, old(io[..]), io[..], n)
    {
      hide WellFormed, Sound, Entries, StartOf, IsDirectory, IsSlot, GoodFile, Live, Grow, Flat, Delivered, Claimed,
           Wanted, Stored, ReadOutcome, ReadsSlice, Step, WrittenCatalog, GoodGrown, Backed;
      ghost var s, f := Now(), View(h);
      SlotInfoInRange(s, x, k);
      OpenFileFacts(vol.rootCluster, s, x, k, f);
      ghost var before := io[..];
      n := ReadBytesFromFile(vol, h, io, size, f.g.chain);
      ReadIsOutcome(f, size, before, io[..], n);
      h.offset := h.offset + n;
      catalog := WrittenCatalog(catalog, StartOf(h.info.node), ReadCall(f).g.chain);
      ReadIsStep(vol.rootCluster, s, x, k, f, Now());
    }

    /** What filling the slot picked for `name` makes of state s; r is what the caller's copy of the slot becomes. */
    ghost predicate CreatedAt(s: State, x: nat, name: seq<byte>, isDir: bool, info: NodeInfo, r: NodeInfo)
      reads this, vol, vol.dev, vol.buffer
    {
      if FirstFree(s.st.fat) != 0 then
        && Valid() && Step(vol.rootCluster, s, Create(x, name, isDir), Now())
        && var list := Entries(vol.store, catalog, x);
          && Finds(list, name) && IsSlot(vol.store, catalog, x, StopAt(list, name, 0))
          && r == SlotInfo(Now(), x, StopAt(list, name, 0)) && (IsDirectory(r.node) <==> isDir)
      else
        && r == info && x < END_MIN
        && if isDir then StrayDirectory(s, StartOf(info.node), x)
           else Valid() && Step(vol.rootCluster, s, Create(x, name, false), Now()) && Now() == s
    }

    /** Initializes the slot picked in directory x, and enters the new chain into the catalog. */
    method CreateAt(info: NodeInfo, filename: seq<byte>, isDir: bool, ghost x: nat) returns (r: NodeInfo)
      requires Valid() && filename != [] && x in catalog.dirs && Storable(Name83(filename)) && IsCreated(info)
      requires var list, name := Entries(vol.store, catalog, x), Name83(filename);
        && !Finds(list, name) && 16 <= |list| && CreationSafe(list, name)
        && IsSlot(vol.store, catalog, x, CreationSlot(list, name))
        && info == PickedSlot(Now(), x, name)
      modifies this, vol, vol.dev, vol.buffer
      ensures CreatedAt(old(Now()), x, Name83(filename), isDir, info, r)
    {
      hide WellFormed, Sound, Entries, Name83, StopAt, StartOf, IsDirectory, Splice, Render, WithEntry, DotSector,
           Step, CreationSafe, CreationSlot, NewEntry, IsPath, SectorOf;
      ghost var s := Now();
      ghost var name, f := Name83(filename), FirstFree(s.st.fat);
      ghost var k := CreationSlot(Entries(s.st, s.t, x), name);
      DirectoryChain(vol.rootCluster, s, x);
      ClaimKeepsShape(s.st);
      r := InitializeNode(info, filename, isDir);
      if isDir {
        var _ := InitializeDirectoryInside(r);
      }
      if f != 0 {
        NewEntryIgnoresOldName(Entries(s.st, s.t, x)[k], name, f, isDir);
        catalog := CreatedCatalog(s.t, x, k, f, isDir);
        CreateIsStep(vol.rootCluster, s, x, name, isDir, Now());
        CreatedSits(vol.rootCluster, s, x, name, isDir, Now());
      } else if !isDir {
        NoCreateIsStep(vol.rootCluster, s, x, name, isDir);
      }
    }

    /** The dot entries of a new directory, and zeros behind them, on the sector its start comes out at. */
    method InitializeDirectoryInside(info: NodeInfo) returns (ok: bool)
      requires vol.Valid() && vol.dev.reliable
      modifies vol`store, vol.dev
      ensures var c, dots := StartOf(info.node), DotSector(StartOf(info.node), info.parentCluster);
        if 2 <= c < |old(vol.store).fat| then
          ok && vol.Valid() && vol.store == Store(old(vol.store).fat, old(vol.store).data[c := dots])
        else vol.store == old(vol.store) && vol.Struck(SectorOf(vol.geometry, c), dots)
    {
      ok := vol.WriteCluster(StartOf(info.node), DotSector(StartOf(info.node), info.parentCluster));
    }
  }
}
