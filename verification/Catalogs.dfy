/** The whole volume: which chains there are, which of them are directories, and which slot owns each. */
module Catalogs {
  import opened Bytes
  import opened FatTable
  import opened Chains
  import opened FileBytes
  import opened DirEntries
  import opened Names
  import opened Directory
  import opened Files
  import opened FileLaws

  datatype SlotRef = SlotRef(dir: nat, slot: nat)

  /**
   * The chain that starts at each first cluster, the first cluster each cluster in use belongs to, the first clusters
   * of directories, and the slot that owns each chain but the root's.
   */
  datatype Catalog = Catalog(chains: map<nat, seq<nat>>, home: map<nat, nat>, dirs: set<nat>, owner: map<nat, SlotRef>)

  ghost predicate AreChains(fat: seq<u32>, chains: map<nat, seq<nat>>) {
    forall h :: h in chains ==> IsChain(fat, chains[h]) && chains[h][0] == h
  }

  /** Every cluster of a chain is at home there, so no two chains share one. */
  ghost predicate ChainsAreHomes(chains: map<nat, seq<nat>>, home: map<nat, nat>) {
    forall h, i :: h in chains && 0 <= i < |chains[h]| ==> chains[h][i] in home && home[chains[h][i]] == h
  }

  ghost predicate HomesAreChains(chains: map<nat, seq<nat>>, home: map<nat, nat>) {
    forall c :: c in home ==> home[c] in chains && c in chains[home[c]]
  }

  /** Every cluster in use has a home, so none is leaked. */
  ghost predicate NoneLeaked(fat: seq<u32>, home: map<nat, nat>) {
    forall c :: 2 <= c < |fat| && fat[c] != 0 ==> c in home
  }

  /** Every chain is end-marked, no two share a cluster, and no cluster in use is outside them. */
  ghost predicate ChainsTile(st: Store, t: Catalog) {
    && AreChains(st.fat, t.chains) && NoneLeaked(st.fat, t.home)
    && ChainsAreHomes(t.chains, t.home) && HomesAreChains(t.chains, t.home)
  }

  ghost function Entries(st: Store, t: Catalog, d: nat): (list: seq<Entry>)
    ensures d in t.chains && Backed(st.data, t.chains[d]) ==> |list| == 16 * |t.chains[d]|
  {
    if d in t.chains && Backed(st.data, t.chains[d]) then Listing(st.data, t.chains[d]) else []
  }

  /** After the first end slot there are only end slots. */
  ghost predicate Tidy(list: seq<Entry>) {
    forall i, j :: 0 <= i < j < |list| && IsEnd(list[i]) ==> IsEnd(list[j])
  }

  ghost predicate UniqueNames(list: seq<Entry>) {
    forall i, j :: 0 <= i < j < |list| && Live(list[i]) && Live(list[j]) ==> list[i].filename != list[j].filename
  }

  /** Slots 0 and 1 of a directory other than the root are its links to itself and to its parent. */
  predicate Regular(root: nat, d: nat, k: nat) {
    d == root || 2 <= k
  }

  ghost predicate Dotted(list: seq<Entry>, root: nat, dirs: set<nat>, d: nat) {
    d != root ==>
      && 2 <= |list|
      && IsHit(list[0], DotName()) && IsDirectory(list[0]) && StartOf(list[0]) == d
      && IsHit(list[1], DotDotName()) && IsDirectory(list[1]) && StartOf(list[1]) in dirs
  }

  /** A live entry starts a chain, and says truly whether that is a directory. */
  ghost predicate EntriesStartChains(list: seq<Entry>, t: Catalog) {
    forall k :: 0 <= k < |list| && Live(list[k]) ==>
      StartOf(list[k]) in t.chains && (IsDirectory(list[k]) <==> StartOf(list[k]) in t.dirs)
  }

  /** Each regular live entry is the one owner of its chain. */
  ghost predicate Owned(list: seq<Entry>, root: nat, t: Catalog, d: nat) {
    forall k :: 0 <= k < |list| && Live(list[k]) && Regular(root, d, k) ==>
      StartOf(list[k]) in t.owner && t.owner[StartOf(list[k])] == SlotRef(d, k)
  }

  ghost predicate DirectoryOk(list: seq<Entry>, root: nat, t: Catalog, d: nat) {
    && Tidy(list) && UniqueNames(list)
    && Dotted(list, root, t.dirs, d) && EntriesStartChains(list, t) && Owned(list, root, t, d)
  }

  /** The file an entry describes, as a descriptor positioned at `o` sees it. */
  ghost function FileOf(st: Store, t: Catalog, e: Entry, o: nat): OpenFile
    requires StartOf(e) in t.chains
  {
    OpenFile(Grown(st, t.chains[StartOf(e)]), e.size, o)
  }

  ghost predicate FilesOk(st: Store, t: Catalog, list: seq<Entry>) {
    forall k :: 0 <= k < |list| && Live(list[k]) && !IsDirectory(list[k]) && StartOf(list[k]) in t.chains ==>
      GoodFile(FileOf(st, t, list[k], 0))
  }

  ghost predicate OwnersExist(st: Store, root: nat, t: Catalog) {
    && t.owner.Keys == t.chains.Keys - {root}
    && forall h :: h in t.owner ==>
         var r := t.owner[h];
         && r.dir in t.dirs && r.slot < |Entries(st, t, r.dir)| && Regular(root, r.dir, r.slot)
         && Live(Entries(st, t, r.dir)[r.slot]) && StartOf(Entries(st, t, r.dir)[r.slot]) == h
  }

  ghost predicate WellFormed(st: Store, root: nat, t: Catalog) {
    && Shaped(st) && ChainsTile(st, t)
    && root in t.dirs && t.dirs <= t.chains.Keys
    && OwnersExist(st, root, t)
    && forall d :: d in t.dirs ==> DirectoryOk(Entries(st, t, d), root, t, d) && FilesOk(st, t, Entries(st, t, d))
  }

  /** In a tidy directory without duplicates the search finds exactly the live entry of that name. */
  lemma SearchFindsTheEntry(list: seq<Entry>, name: seq<byte>, k: nat)
    requires Tidy(list) && UniqueNames(list) && k < |list| && IsHit(list[k], name)
    ensures Finds(list, name) && StopAt(list, name, 0) == k
  {
    StopAtIsFirst(list, name, 0);
  }

  lemma SearchMisses(list: seq<Entry>, name: seq<byte>, k: nat)
    requires Tidy(list) && !Finds(list, name) && k < |list|
    ensures !IsHit(list[k], name)
  {
    StopAtIsFirst(list, name, 0);
    var stop := StopAt(list, name, 0);
    if stop < |list| && stop < k {
      assert IsEnd(list[stop]);
    }
  }

  /** The chain that starts at `h`, and where its clusters are at home. */
  lemma ChainFacts(st: Store, t: Catalog, h: nat)
    requires Shaped(st) && ChainsTile(st, t) && h in t.chains
    ensures var s := t.chains[h];
      && 0 < |s| && s[0] == h && IsChain(st.fat, s) && Distinct(s) && Backed(st.data, s) && GoodGrown(Grown(st, s))
      && forall i :: 0 <= i < |s| ==>
           2 <= s[i] < |st.fat| && st.fat[s[i]] != 0 && s[i] in t.home && t.home[s[i]] == h
  {
    hide NoneLeaked, HomesAreChains;
    ChainIsInUse(st.fat, t.chains[h]);
    ChainIsAcyclic(st.fat, t.chains[h]);
  }
}
