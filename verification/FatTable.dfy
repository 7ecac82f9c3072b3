/** The meaning of a FAT32 volume, free of caching: a table of cluster links and the clusters' bytes. */
module FatTable {
  import opened Bytes

  /** Any link at or above END_MIN closes a chain; the code itself writes END_MARK. */
  const END_MIN: u32 := 0xFFF_FFF8
  const END_MARK: u32 := 0xFFF_FFFF

  /** `fat[c]` is the link out of cluster c (0 when c is free) and `data[c]` its bytes; slots 0 and 1 are padding. */
  datatype Store = Store(fat: seq<u32>, data: seq<Sector>)

  /** What the volume's clusters look like to the code: every link is free, in range or an end mark. */
  ghost predicate Shaped(st: Store) {
    && 2 < |st.fat| == |st.data| < END_MIN
    && LinksInRange(st.fat)
  }

  ghost predicate LinksInRange(fat: seq<u32>) {
    forall c :: 2 <= c < |fat| ==> fat[c] < |fat| || END_MIN <= fat[c]
  }

  /** The least free cluster at or above `from`, or 0. */
  ghost function FirstFreeFrom(fat: seq<u32>, from: nat): (f: nat)
    ensures f == 0 || from <= f < |fat|
    decreases |fat| - from
  {
    if from >= |fat| then 0 else if fat[from] == 0 then from else FirstFreeFrom(fat, from + 1)
  }

  ghost function FirstFree(fat: seq<u32>): (f: nat)
    ensures f == 0 || 2 <= f < |fat|
  {
    FirstFreeFrom(fat, 2)
  }

  lemma {:induction false} FirstFreeFromIsLeast(fat: seq<u32>, from: nat)
    requires 0 < from
    ensures var f := FirstFreeFrom(fat, from);
      if f == 0 then forall c :: from <= c < |fat| ==> fat[c] != 0
      else from <= f < |fat| && fat[f] == 0 && forall c :: from <= c < f ==> fat[c] != 0
    decreases |fat| - from
  {
    if from < |fat| && fat[from] != 0 {
      FirstFreeFromIsLeast(fat, from + 1);
    }
  }

  /** Claims the least free cluster, zeroed, as the new end behind `tail`; tail 0 starts a chain of its own. */
  ghost function Claim(st: Store, tail: nat): (r: Store)
    requires Shaped(st) && tail < |st.fat|
  {
    if FirstFree(st.fat) == 0 then st else ClaimAt(st, tail, FirstFree(st.fat))
  }

  ghost function ClaimAt(st: Store, tail: nat, f: nat): Store
    requires Shaped(st) && tail < |st.fat| && f < |st.fat|
  {
    Store(Linked(st.fat, if tail == 0 then f else tail, f), st.data[f := ZeroSector()])
  }

  ghost function Linked(fat: seq<u32>, tail: nat, f: nat): seq<u32>
    requires tail < |fat| && f < |fat| < END_MIN
  {
    fat[tail := f][f := END_MARK]
  }

  /** The clusters still in use, the measure by which deletion ends even on a cyclic table. */
  ghost function Used(fat: seq<u32>): set<nat> {
    set c: nat | 2 <= c < |fat| && fat[c] != 0
  }

  ghost function Free(fat: seq<u32>): set<nat> {
    set c: nat | 2 <= c < |fat| && fat[c] == 0
  }

  /** A link the deletion loop follows. */
  predicate Follows(c: u32) {
    2 <= c < END_MIN
  }

  /** The table after freeing whatever the links out of `c` lead to. */
  ghost function Release(fat: seq<u32>, c: u32): (r: seq<u32>)
    requires |fat| < END_MIN && LinksInRange(fat)
    requires Follows(c) ==> c < |fat|
    ensures |r| == |fat|
    decreases Used(fat), if Follows(c) then 1 else 0
  {
    if !Follows(c) then fat
    else
      assert fat[c] != 0 ==> c in Used(fat) && c !in Used(fat[c := 0]);
      Release(fat[c := 0], fat[c])
  }

  lemma ReleaseStep(fat: seq<u32>, c: u32)
    requires |fat| < END_MIN && LinksInRange(fat) && 2 <= c < |fat|
    ensures var freed := fat[c := 0];
      && LinksInRange(freed) && Release(fat, c) == Release(freed, fat[c])
      && (Follows(fat[c]) ==> fat[c] < |fat|)
      && (Used(freed) < Used(fat) || (Used(freed) == Used(fat) && !Follows(fat[c])))
  {
    if fat[c] != 0 {
      assert c in Used(fat) && c !in Used(fat[c := 0]);
    }
  }

  /** `p` walks along the links of the table. */
  ghost predicate IsPath(fat: seq<u32>, p: seq<nat>) {
    && 0 < |p|
    && (forall i :: 0 <= i < |p| ==> 2 <= p[i] < |fat|)
    && (forall i :: 0 <= i < |p| - 1 ==> fat[p[i]] == p[i + 1])
  }

  ghost predicate Reaches(fat: seq<u32>, from: nat, c: nat) {
    exists p :: IsPath(fat, p) && p[0] == from && p[|p| - 1] == c
  }

  /** A path that leaves `c` and ends elsewhere has a last step out of `c`; the rest survives freeing `c`. */
  lemma {:induction false} PathPastCluster(fat: seq<u32>, c: nat, p: seq<nat>)
    requires 2 <= c < |fat|
    requires IsPath(fat, p) && p[0] == c && p[|p| - 1] != c
    ensures Reaches(fat[c := 0], fat[c], p[|p| - 1])
    decreases |p|
  {
    var rest := p[1..];
    if c in rest {
      var k :| 0 <= k < |rest| && rest[k] == c;
      PathPastCluster(fat, c, rest[k..]);
    } else {
      assert IsPath(fat[c := 0], rest);
    }
  }

  lemma ReachesAfterFreeing(fat: seq<u32>, c: nat, i: nat)
    requires 2 <= c < |fat| && i != c
    ensures Reaches(fat, c, i) <==> Reaches(fat[c := 0], fat[c], i)
  {
    if Reaches(fat, c, i) {
      var p :| IsPath(fat, p) && p[0] == c && p[|p| - 1] == i;
      PathPastCluster(fat, c, p);
    }
    if Reaches(fat[c := 0], fat[c], i) {
      var p :| IsPath(fat[c := 0], p) && p[0] == fat[c] && p[|p| - 1] == i;
      assert IsPath(fat, [c] + p);
    }
  }

  /** Deletion frees exactly the clusters reachable from the start, on any table with links in range, cyclic or not. */
  lemma {:induction false} ReleaseFreesReachable(fat: seq<u32>, c: u32, i: nat)
    requires |fat| < END_MIN && LinksInRange(fat)
    requires Follows(c) ==> c < |fat|
    requires i < |fat|
    ensures Release(fat, c)[i] == if Reaches(fat, c, i) then 0 else fat[i]
    decreases Used(fat), if Follows(c) then 1 else 0
  {
    if Follows(c) {
      assert fat[c] != 0 ==> c in Used(fat) && c !in Used(fat[c := 0]);
      ReleaseFreesReachable(fat[c := 0], fat[c], i);
      if i != c {
        ReachesAfterFreeing(fat, c, i);
      } else {
        assert IsPath(fat, [c as nat]);
      }
    }
  }

  /** `bytes` written into cluster c from `offset`. */
  ghost function PutPart(st: Store, c: nat, offset: nat, bytes: seq<byte>): Store
    requires c < |st.data| && offset + |bytes| <= 512
  {
    Store(st.fat, st.data[c := Splice(st.data[c], offset, bytes)])
  }

  /** No cluster to act on: the walk never started, ran off its chain, or found the disk full. */
  predicate Closed(c: u32) {
    c == 0 || END_MIN <= c
  }

  /** The state and cluster one walking step from `c` leads to, claiming a new tail where the chain ends. */
  ghost function Advance(st: Store, c: nat, allocating: bool): (Store, u32)
    requires Shaped(st) && 2 <= c < |st.fat|
  {
    if END_MIN <= st.fat[c] && allocating then (Claim(st, c), FirstFree(st.fat)) else (st, st.fat[c])
  }
}
