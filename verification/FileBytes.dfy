/** The byte sequence a chain of clusters stands for, and what writing into it means. */
module FileBytes {
  import opened Bytes
  import opened FatTable
  import opened Chains

  /** Every cluster of the chain has its bytes. */
  ghost predicate Backed(data: seq<Sector>, chain: seq<nat>) {
    forall i :: 0 <= i < |chain| ==> chain[i] < |data|
  }

  ghost function ByteAt(data: seq<Sector>, chain: seq<nat>, p: nat): byte
    requires Backed(data, chain) && p < 512 * |chain|
  {
    data[chain[p / 512]][p % 512]
  }

  /** The clusters' bytes end to end. */
  ghost function Flat(data: seq<Sector>, chain: seq<nat>): (r: seq<byte>)
    requires Backed(data, chain)
    ensures |r| == 512 * |chain|
  {
    seq(512 * |chain|, p requires 0 <= p < 512 * |chain| => ByteAt(data, chain, p))
  }

  function Zeros(n: nat): (r: seq<byte>)
    ensures |r| == n
  {
    seq(n, _ => 0)
  }

  /** A cluster that holds bytes base..base+512 of a file, after `d` is written at `o`. */
  ghost function Overlay(s: Sector, base: int, o: int, d: seq<byte>): (r: Sector)
    ensures forall j :: 0 <= j < 512 ==> r[j] == if o <= base + j < o + |d| then d[base + j - o] else s[j]
  {
    seq(512, j requires 0 <= j < 512 => if o <= base + j < o + |d| then d[base + j - o] else s[j])
  }

  ghost function Position(chain: seq<nat>, c: nat): (i: nat)
    requires c in chain
    ensures i < |chain| && chain[i] == c
  {
    var i :| 0 <= i < |chain| && chain[i] == c;
    i
  }

  ghost function Patched(s: Sector, chain: seq<nat>, c: nat, o: nat, d: seq<byte>): Sector {
    if c in chain then Overlay(s, 512 * Position(chain, c), o, d) else s
  }

  /** All clusters, after `d` is written at `o` into the file made of `chain`. */
  ghost function Put(data: seq<Sector>, chain: seq<nat>, o: nat, d: seq<byte>): (r: seq<Sector>)
    ensures |r| == |data|
    ensures forall c :: 0 <= c < |data| && c !in chain ==> r[c] == data[c]
  {
    seq(|data|, c requires 0 <= c < |data| => Patched(data[c], chain, c, o, d))
  }

  lemma PutAt(data: seq<Sector>, chain: seq<nat>, o: nat, d: seq<byte>, i: nat)
    requires Backed(data, chain) && Distinct(chain) && i < |chain|
    ensures Put(data, chain, o, d)[chain[i]] == Overlay(data[chain[i]], 512 * i, o, d)
  {
    var k := Position(chain, chain[i]);
    assert k == i;
  }

  /** Two results that agree on every cluster of the chain and on the rest are the same. */
  lemma SameData(a: seq<Sector>, b: seq<Sector>, chain: seq<nat>)
    requires |a| == |b| && Backed(a, chain)
    requires forall i :: 0 <= i < |chain| ==> a[chain[i]] == b[chain[i]]
    requires forall c :: 0 <= c < |a| && c !in chain ==> a[c] == b[c]
    ensures a == b
  {
    forall c | 0 <= c < |a| ensures a[c] == b[c] {
      if c in chain {
        var i := Position(chain, c);
        assert a[chain[i]] == b[chain[i]];
      }
    }
  }

  lemma PutNothing(data: seq<Sector>, chain: seq<nat>, o: nat)
    requires Backed(data, chain) && Distinct(chain)
    ensures Put(data, chain, o, []) == data
  {
    forall i | 0 <= i < |chain| ensures Put(data, chain, o, [])[chain[i]] == data[chain[i]] {
      PutAt(data, chain, o, [], i);
      assert Overlay(data[chain[i]], 512 * i, o, []) == data[chain[i]];
    }
    SameData(Put(data, chain, o, []), data, chain);
  }

  /** Writing on where the last write stopped is one write of both pieces. */
  lemma PutJoins(data: seq<Sector>, chain: seq<nat>, o: nat, d: seq<byte>, e: seq<byte>)
    requires Backed(data, chain) && Distinct(chain)
    ensures Put(Put(data, chain, o, d), chain, o + |d|, e) == Put(data, chain, o, d + e)
  {
    var once, twice := Put(data, chain, o, d + e), Put(Put(data, chain, o, d), chain, o + |d|, e);
    forall i | 0 <= i < |chain| ensures twice[chain[i]] == once[chain[i]] {
      PutAt(data, chain, o, d + e, i);
      PutAt(data, chain, o, d, i);
      PutAt(Put(data, chain, o, d), chain, o + |d|, e, i);
      OverlayJoins(data[chain[i]], 512 * i, o, d, e);
    }
    SameData(twice, once, chain);
  }

  lemma OverlayJoins(s: Sector, base: int, o: int, d: seq<byte>, e: seq<byte>)
    ensures Overlay(Overlay(s, base, o, d), base, o + |d|, e) == Overlay(s, base, o, d + e)
  {
  }

  /** Writing part of one cluster is writing into the file. */
  lemma PutPartIsPut(st: Store, chain: seq<nat>, i: nat, offset: nat, d: seq<byte>)
    requires Backed(st.data, chain) && Distinct(chain) && i < |chain| && offset + |d| <= 512
    ensures PutPart(st, chain[i], offset, d) == Store(st.fat, Put(st.data, chain, 512 * i + offset, d))
  {
    var a, b := PutPart(st, chain[i], offset, d).data, Put(st.data, chain, 512 * i + offset, d);
    forall k | 0 <= k < |chain| ensures a[chain[k]] == b[chain[k]] {
      PutAt(st.data, chain, 512 * i + offset, d, k);
      if k == i {
        assert a[chain[i]] == Splice(st.data[chain[i]], offset, d);
        assert Overlay(st.data[chain[i]], 512 * i, 512 * i + offset, d) == Splice(st.data[chain[i]], offset, d);
      } else {
        assert a[chain[k]] == st.data[chain[k]];
        assert k < i ==> 512 * k + 512 <= 512 * i;
        assert k > i ==> 512 * k >= 512 * i + 512;
        assert Overlay(st.data[chain[k]], 512 * k, 512 * i + offset, d) == st.data[chain[k]];
      }
    }
    SameData(a, b, chain);
  }

  /** Hanging a zeroed cluster behind the chain does not disturb what was written before its end. */
  lemma PutThenAppend(data: seq<Sector>, chain: seq<nat>, f: nat, o: nat, d: seq<byte>)
    requires Backed(data, chain) && Distinct(chain) && f !in chain && f < |data|
    requires o + |d| <= 512 * |chain|
    ensures Put(data[f := ZeroSector()], chain + [f], o, d) == Put(data, chain, o, d)[f := ZeroSector()]
  {
    var data', chain' := data[f := ZeroSector()], chain + [f];
    var a, b := Put(data', chain', o, d), Put(data, chain, o, d)[f := ZeroSector()];
    forall i | 0 <= i < |chain'| ensures a[chain'[i]] == b[chain'[i]] {
      PutAt(data', chain', o, d, i);
      if i < |chain| {
        PutAt(data, chain, o, d, i);
      } else {
        assert Overlay(ZeroSector(), 512 * i, o, d) == ZeroSector();
      }
    }
    SameData(a, b, chain');
  }

  /** A write is a splice of the file's bytes. */
  lemma FlatPut(data: seq<Sector>, chain: seq<nat>, o: nat, d: seq<byte>)
    requires Backed(data, chain) && Distinct(chain) && o + |d| <= 512 * |chain|
    ensures Flat(Put(data, chain, o, d), chain) == Splice(Flat(data, chain), o, d)
  {
    var a, b := Flat(Put(data, chain, o, d), chain), Splice(Flat(data, chain), o, d);
    forall p | 0 <= p < |a| ensures a[p] == b[p] {
      PutAt(data, chain, o, d, p / 512);
      assert 512 * (p / 512) + p % 512 == p;
    }
  }

  lemma FlatAppend(data: seq<Sector>, chain: seq<nat>, f: nat)
    requires Backed(data, chain) && f < |data|
    ensures Flat(data, chain + [f]) == Flat(data, chain) + data[f]
  {
    var a, b := Flat(data, chain + [f]), Flat(data, chain) + data[f];
    forall p | 0 <= p < |a| ensures a[p] == b[p] {
    }
  }

  lemma FlatFrame(data: seq<Sector>, data': seq<Sector>, chain: seq<nat>)
    requires Backed(data, chain) && Backed(data', chain)
    requires forall i :: 0 <= i < |chain| ==> data'[chain[i]] == data[chain[i]]
    ensures Flat(data', chain) == Flat(data, chain)
  {
  }

  /** The i-th cluster, as a stretch of the file's bytes. */
  lemma FlatStretch(data: seq<Sector>, chain: seq<nat>, i: nat, a: nat, b: nat)
    requires Backed(data, chain) && i < |chain| && a <= b <= 512
    ensures Flat(data, chain)[512 * i + a..512 * i + b] == data[chain[i]][a..b]
  {
    forall k | a <= k < b ensures Flat(data, chain)[512 * i + k] == data[chain[i]][k] {
      if k < 512 {
        assert (512 * i + k) / 512 == i && (512 * i + k) % 512 == k;
      }
    }
  }

  lemma PadMore(s: seq<byte>, m: nat)
    ensures s + ZeroSector() + Zeros(512 * m) == s + Zeros(512 * (m + 1))
  {
    assert ZeroSector() + Zeros(512 * m) == Zeros(512 * (m + 1));
  }

  /** Growth pads the file with zeros. */
  lemma {:induction false} FlatGrow(g: Grown, want: nat)
    requires GoodGrown(g)
    ensures var r := Grow(g, want);
      Flat(r.st.data, r.chain) == Flat(g.st.data, g.chain) + Zeros(512 * (|r.chain| - |g.chain|))
    decreases want - |g.chain|
  {
    if want <= |g.chain| || FirstFree(g.st.fat) == 0 {
      assert Zeros(512 * (|g.chain| - |g.chain|)) == [];
    } else {
      var n := Append(g);
      var f := FirstFree(g.st.fat);
      ClaimAppends(g.st, g.chain);
      FlatGrow(n, want);
      FlatAppend(n.st.data, g.chain, f);
      FlatFrame(g.st.data, n.st.data, g.chain);
      PadMore(Flat(g.st.data, g.chain), |Grow(n, want).chain| - |n.chain|);
    }
  }
}
