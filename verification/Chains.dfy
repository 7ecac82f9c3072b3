/** Cluster chains: what the links of the table mean for one file or directory. */
module Chains {
  import opened Bytes
  import opened FatTable

  /** The clusters of one file, in order: each links to the next and the last carries an end mark. */
  ghost predicate IsChain(fat: seq<u32>, s: seq<nat>) {
    IsPath(fat, s) && END_MIN <= fat[s[|s| - 1]]
  }

  ghost predicate Distinct(s: seq<nat>) {
    forall i, j :: 0 <= i < j < |s| ==> s[i] != s[j]
  }

  lemma {:induction false} EqualPositionsStayEqual(fat: seq<u32>, s: seq<nat>, i: nat, j: nat, m: nat)
    requires IsPath(fat, s) && i <= j && j + m < |s| && s[i] == s[j]
    ensures s[i + m] == s[j + m]
  {
    if m > 0 {
      EqualPositionsStayEqual(fat, s, i, j, m - 1);
      assert fat[s[i + m - 1]] == s[i + m] && fat[s[j + m - 1]] == s[j + m];
    }
  }

  lemma OnlyTailIsMarked(fat: seq<u32>, s: seq<nat>)
    requires |fat| < END_MIN && IsPath(fat, s)
    ensures forall i :: 0 <= i < |s| - 1 ==> fat[s[i]] < END_MIN
  {
    forall i | 0 <= i < |s| - 1 ensures fat[s[i]] < END_MIN {
      assert fat[s[i]] == s[i + 1];
    }
  }

  /** What a chain is, without the names of its parts. */
  lemma ChainEndsWithMark(fat: seq<u32>, s: seq<nat>)
    ensures IsChain(fat, s) <==>
      && s != [] && (forall i :: 0 <= i < |s| ==> 2 <= s[i] < |fat|)
      && (forall i :: 0 <= i < |s| - 1 ==> fat[s[i]] == s[i + 1])
      && 0xFFF_FFF8 <= fat[s[|s| - 1]]
  {
  }

  /** An end-marked walk can never have met a cluster twice. */
  lemma ChainIsAcyclic(fat: seq<u32>, s: seq<nat>)
    requires |fat| < END_MIN && IsChain(fat, s)
    ensures Distinct(s)
  {
    OnlyTailIsMarked(fat, s);
    forall i, j | 0 <= i < j < |s| ensures s[i] != s[j] {
      if s[i] == s[j] {
        EqualPositionsStayEqual(fat, s, i, j, |s| - 1 - j);
      }
    }
  }

  lemma FirstLink(fat: seq<u32>, s: seq<nat>)
    requires |fat| < END_MIN && IsChain(fat, s)
    ensures |s| == 1 <==> END_MIN <= fat[s[0]]
    ensures |s| > 1 ==> fat[s[0]] == s[1] && IsChain(fat, s[1..])
  {
    if |s| > 1 {
      assert fat[s[0]] == s[1];
    }
  }

  /** A cluster starts at most one chain. */
  lemma {:induction false} ChainIsUnique(fat: seq<u32>, s: seq<nat>, t: seq<nat>)
    requires |fat| < END_MIN && IsChain(fat, s) && IsChain(fat, t) && s[0] == t[0]
    ensures s == t
    decreases |s|
  {
    FirstLink(fat, s);
    FirstLink(fat, t);
    if |s| > 1 {
      ChainIsUnique(fat, s[1..], t[1..]);
      assert s == [s[0]] + s[1..] && t == [t[0]] + t[1..];
    }
  }

  lemma ChainIsInUse(fat: seq<u32>, s: seq<nat>)
    requires IsChain(fat, s)
    ensures forall i :: 0 <= i < |s| ==> fat[s[i]] != 0
  {
    forall i | 0 <= i < |s| ensures fat[s[i]] != 0 {
      if i < |s| - 1 {
        assert fat[s[i]] == s[i + 1];
      }
    }
  }

  lemma ChainFrame(fat: seq<u32>, fat': seq<u32>, s: seq<nat>)
    requires IsChain(fat, s) && |fat'| == |fat|
    requires forall i :: 0 <= i < |s| ==> fat'[s[i]] == fat[s[i]]
    ensures IsChain(fat', s)
  {
    forall i | 0 <= i < |s| - 1 ensures fat'[s[i]] == s[i + 1] {
      assert fat[s[i]] == s[i + 1];
    }
  }

  lemma RestOfChain(fat: seq<u32>, s: seq<nat>)
    requires |fat| < END_MIN && LinksInRange(fat) && IsChain(fat, s)
    ensures LinksInRange(fat[s[0] := 0])
    ensures |s| > 1 ==> IsChain(fat[s[0] := 0], s[1..])
  {
    ChainIsAcyclic(fat, s);
    FirstLink(fat, s);
    if |s| > 1 {
      ChainFrame(fat, fat[s[0] := 0], s[1..]);
    }
  }

  /** Deleting a chain frees its clusters and no others. */
  lemma {:induction false} ReleaseOfChain(fat: seq<u32>, s: seq<nat>, c: nat)
    requires |fat| < END_MIN && LinksInRange(fat) && IsChain(fat, s) && c < |fat|
    ensures Release(fat, s[0])[c] == if c in s then 0 else fat[c]
    decreases |s|
  {
    FirstLink(fat, s);
    RestOfChain(fat, s);
    ReleaseStep(fat, s[0]);
    if |s| > 1 {
      ReleaseOfChain(fat[s[0] := 0], s[1..], c);
      assert s == [s[0]] + s[1..];
    }
  }

  lemma FirstFreeIsFree(fat: seq<u32>)
    ensures FirstFree(fat) != 0 ==> fat[FirstFree(fat)] == 0 && FirstFree(fat) in Free(fat)
    ensures FirstFree(fat) == 0 <==> Free(fat) == {}
    ensures forall c :: 2 <= c < FirstFree(fat) && c < |fat| ==> fat[c] != 0
  {
    FirstFreeFromIsLeast(fat, 2);
    if FirstFree(fat) == 0 {
      assert Free(fat) == {};
    }
  }

  /** What claiming a cluster does to the chain whose tail it is hung on, and to everything else. */
  lemma ClaimAppends(st: Store, s: seq<nat>)
    requires Shaped(st) && IsChain(st.fat, s) && FirstFree(st.fat) != 0
    ensures var f, st' := FirstFree(st.fat), Claim(st, s[|s| - 1]);
      && Shaped(st') && IsChain(st'.fat, s + [f]) && f !in s && st'.fat[f] == 0xFFF_FFFF
      && st'.data == st.data[f := ZeroSector()]
      && Free(st'.fat) == Free(st.fat) - {f}
      && (forall c :: 0 <= c < |st.fat| && c != f && c != s[|s| - 1] ==> st'.fat[c] == st.fat[c])
  {
    var f, st' := FirstFree(st.fat), Claim(st, s[|s| - 1]);
    FirstFreeIsFree(st.fat);
    ChainIsInUse(st.fat, s);
    ChainIsAcyclic(st.fat, s);
    var s' := s + [f];
    forall i | 0 <= i < |s'| - 1 ensures st'.fat[s'[i]] == s'[i + 1] {
      if i < |s| - 1 {
        assert st.fat[s[i]] == s[i + 1];
      }
    }
  }

  /** Tail 0 starts a chain of one cluster and touches no other link. */
  lemma ClaimStarts(st: Store)
    requires Shaped(st) && FirstFree(st.fat) != 0
    ensures var f, st' := FirstFree(st.fat), Claim(st, 0);
      && Shaped(st') && IsChain(st'.fat, [f]) && st'.fat == st.fat[f := 0xFFF_FFFF]
      && st'.data == st.data[f := ZeroSector()]
  {
    FirstFreeIsFree(st.fat);
  }

  /** A state together with the chain being followed. */
  datatype Grown = Grown(st: Store, chain: seq<nat>)

  ghost predicate GoodGrown(g: Grown) {
    Shaped(g.st) && IsChain(g.st.fat, g.chain)
  }

  ghost function Append(g: Grown): (r: Grown)
    requires GoodGrown(g)
    ensures GoodGrown(r) && g.chain <= r.chain
  {
    if FirstFree(g.st.fat) == 0 then g
    else
      ClaimAppends(g.st, g.chain);
      Grown(Claim(g.st, g.chain[|g.chain| - 1]), g.chain + [FirstFree(g.st.fat)])
  }

  /** The chain extended, one claimed cluster at a time, to `want` clusters or until the disk is full. */
  ghost function Grow(g: Grown, want: nat): (r: Grown)
    requires GoodGrown(g)
    ensures GoodGrown(r) && g.chain <= r.chain
    decreases want - |g.chain|
  {
    if want <= |g.chain| || FirstFree(g.st.fat) == 0 then g else Grow(Append(g), want)
  }

  lemma {:induction false} GrowOneMore(g: Grown, want: nat)
    requires GoodGrown(g) && |g.chain| <= want
    ensures Grow(g, want + 1) == if |Grow(g, want).chain| < want then Grow(g, want) else Append(Grow(g, want))
    decreases want - |g.chain|
  {
    if |g.chain| < want && FirstFree(g.st.fat) != 0 {
      GrowOneMore(Append(g), want);
    }
  }

  lemma {:induction false} GrowTwice(g: Grown, a: nat, b: nat)
    requires GoodGrown(g) && a <= b
    ensures Grow(Grow(g, a), b) == Grow(g, b)
    decreases a - |g.chain|
  {
    if !(a <= |g.chain| || FirstFree(g.st.fat) == 0) {
      GrowTwice(Append(g), a, b);
    }
  }

  /** Growth stops short only on a full disk. */
  lemma {:induction false} GrowReaches(g: Grown, want: nat)
    requires GoodGrown(g)
    ensures want <= |Grow(g, want).chain| || FirstFree(Grow(g, want).st.fat) == 0
    ensures |Grow(g, want).chain| <= |g.chain| || |Grow(g, want).chain| <= want
    decreases want - |g.chain|
  {
    if !(want <= |g.chain| || FirstFree(g.st.fat) == 0) {
      GrowReaches(Append(g), want);
    }
  }

  /** The exact length growth ends at. */
  lemma {:induction false} GrowLength(g: Grown, want: nat)
    requires GoodGrown(g)
    ensures var room := |g.chain| + |Free(g.st.fat)|;
      |Grow(g, want).chain| == if want <= |g.chain| then |g.chain| else if want <= room then want else room
    decreases want - |g.chain|
  {
    FirstFreeIsFree(g.st.fat);
    if !(want <= |g.chain| || FirstFree(g.st.fat) == 0) {
      ClaimAppends(g.st, g.chain);
      GrowLength(Append(g), want);
    }
  }

  /** What growth leaves alone: the clusters in use keep their bytes, and all but the old tail their links. */
  ghost predicate Extends(g: Grown, r: Grown)
    requires GoodGrown(g) && GoodGrown(r)
  {
    && |r.st.fat| == |g.st.fat|
    && g.chain <= r.chain
    && (forall c :: 2 <= c < |g.st.fat| && g.st.fat[c] != 0 ==>
         r.st.data[c] == g.st.data[c] && (c !in g.chain ==> r.st.fat[c] == g.st.fat[c]))
    && (forall c :: 2 <= c < |g.st.fat| && g.st.fat[c] == 0 && c !in r.chain ==> r.st.fat[c] == 0)
    && (forall i :: |g.chain| <= i < |r.chain| ==> g.st.fat[r.chain[i]] == 0 && r.st.data[r.chain[i]] == ZeroSector())
  }

  lemma AppendExtends(g: Grown)
    requires GoodGrown(g)
    ensures Extends(g, Append(g))
  {
    FirstFreeIsFree(g.st.fat);
    if FirstFree(g.st.fat) != 0 {
      ClaimAppends(g.st, g.chain);
    }
  }

  lemma InPrefix(s: seq<nat>, t: seq<nat>, c: nat)
    requires s <= t
    ensures c in s ==> c in t
  {
    if c in s {
      var i :| 0 <= i < |s| && s[i] == c;
      assert t[i] == c;
    }
  }

  lemma InUseIsOld(g: Grown, r: Grown, c: nat)
    requires GoodGrown(g) && GoodGrown(r) && Extends(g, r)
    requires c in r.chain && g.st.fat[c] != 0
    ensures c in g.chain
  {
    var i :| 0 <= i < |r.chain| && r.chain[i] == c;
    assert g.chain[i] == r.chain[i];
  }

  lemma UsedStaysUsed(g: Grown, r: Grown, c: nat)
    requires GoodGrown(g) && GoodGrown(r) && Extends(g, r)
    requires 2 <= c < |g.st.fat| && g.st.fat[c] != 0
    ensures r.st.fat[c] != 0
  {
    ChainIsInUse(r.st.fat, r.chain);
    if c in g.chain {
      var i :| 0 <= i < |g.chain| && g.chain[i] == c;
      assert r.chain[i] == c;
    }
  }

  lemma ExtendsTransitive(a: Grown, b: Grown, c: Grown)
    requires GoodGrown(a) && GoodGrown(b) && GoodGrown(c) && Extends(a, b) && Extends(b, c)
    ensures Extends(a, c)
  {
    ChainIsInUse(b.st.fat, b.chain);
    forall k | 2 <= k < |a.st.fat| && a.st.fat[k] != 0
      ensures c.st.data[k] == a.st.data[k] && (k !in a.chain ==> c.st.fat[k] == a.st.fat[k])
    {
      if k in b.chain {
        InUseIsOld(a, b, k);
      }
    }
    forall k | 2 <= k < |a.st.fat| && a.st.fat[k] == 0 && k !in c.chain ensures c.st.fat[k] == 0 {
      InPrefix(b.chain, c.chain, k);
    }
    forall i | |a.chain| <= i < |c.chain|
      ensures a.st.fat[c.chain[i]] == 0 && c.st.data[c.chain[i]] == ZeroSector()
    {
      if i < |b.chain| {
        assert c.chain[i] == b.chain[i];
      } else {
        var k := c.chain[i];
        assert b.st.fat[k] == 0;
        if a.st.fat[k] != 0 {
          UsedStaysUsed(a, b, k);
        }
      }
    }
  }

  lemma {:induction false} GrowExtends(g: Grown, want: nat)
    requires GoodGrown(g)
    ensures Extends(g, Grow(g, want))
    decreases want - |g.chain|
  {
    if !(want <= |g.chain| || FirstFree(g.st.fat) == 0) {
      AppendExtends(g);
      GrowExtends(Append(g), want);
      ExtendsTransitive(g, Append(g), Grow(g, want));
    }
  }
}
