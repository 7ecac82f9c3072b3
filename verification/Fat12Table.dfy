/** The packed 12-bit table of archive/fat12.c: two entries share every three bytes. */
module Fat12Table {
  import opened Bytes

  /** What get_entry_offset caches at a time: three sectors. */
  const WINDOW := 1536
  const PER_WINDOW := 1024

  /** The first of the two bytes that hold entry c. */
  function Offset(c: nat): nat {
    c + c / 2
  }

  /** The window offset as get_entry_offset spells it, its remainder taken of the half alone. */
  function OffsetAsSpelled(c: nat): nat {
    c + c / 2 % WINDOW
  }

  /** That spelling stays inside the window, and names the entry, only for the entries of the first window. */
  lemma SpelledOffsetIsMeantExactlyInTheFirstWindow(c: nat)
    ensures OffsetAsSpelled(c) == Offset(c) % WINDOW <==> c < PER_WINDOW
    ensures OffsetAsSpelled(c) < WINDOW <==> c < PER_WINDOW
  {
    if c < 2 * WINDOW {
      assert c / 2 % WINDOW == c / 2;
    }
  }

  /** No entry straddles two windows, and every window is used alike. */
  lemma WindowsHoldWholeEntries(c: nat)
    ensures WINDOW == 1536 && PER_WINDOW == 1024
    ensures Offset(c) / 512 / 3 == c / PER_WINDOW && (Offset(c) + 1) / WINDOW == c / PER_WINDOW
    ensures Offset(c) % WINDOW == Offset(c % PER_WINDOW) && Offset(c) % WINDOW + 1 < WINDOW
    ensures Offset(c) == WINDOW * (c / PER_WINDOW) + Offset(c) % WINDOW
  {
    var k, d := c / PER_WINDOW, c % PER_WINDOW;
    assert c / 2 == 512 * k + d / 2;
    assert Offset(c) == WINDOW * k + Offset(d);
  }

  /** The first sector of the window entry c lies in, and why all of the window is inside the table. */
  lemma WindowOf(c: nat, sectorsPerFat: nat)
    requires sectorsPerFat % 3 == 0 && c < sectorsPerFat / 3 * PER_WINDOW
    ensures var first := Offset(c) / 512 / 3 * 3;
      && first % 3 == 0 && first + 3 <= sectorsPerFat
      && Offset(c) == 512 * first + Offset(c) % WINDOW && Offset(c) % WINDOW + 1 < WINDOW
  {
    WindowsHoldWholeEntries(c);
    assert c / PER_WINDOW < sectorsPerFat / 3;
  }

  /** A FAT of that many sectors is made of whole windows. */
  ghost predicate WholeWindows(sectorsPerFat: nat, n: nat) {
    sectorsPerFat % 3 == 0 && n == 512 * sectorsPerFat && n % WINDOW == 0 && n / WINDOW == sectorsPerFat / 3
  }

  lemma ThreeSectorsAWindow(sectorsPerFat: nat)
    requires sectorsPerFat % 3 == 0
    ensures WholeWindows(sectorsPerFat, 512 * sectorsPerFat)
  {
    assert 512 * sectorsPerFat == WINDOW * (sectorsPerFat / 3);
  }

  function Entry(bytes: seq<byte>, c: nat): nat
    requires Offset(c) + 1 < |bytes|
  {
    var low: int, high: int := bytes[Offset(c)], bytes[Offset(c) + 1];
    if c % 2 == 1 then low / 0x10 + 0x10 * high else low + 0x100 * (high % 0x10)
  }

  /** The two bytes of an entry once `v` is stored in it, the neighbour's half byte kept. */
  function Stored(low: byte, high: byte, c: nat, v: u32): (byte, byte) {
    if c % 2 == 1 then (0x10 * (v % 0x10) + low % 0x10, v / 0x10 % 0x100)
    else (v % 0x100, high / 0x10 * 0x10 + v / 0x100 % 0x10)
  }

  function WithEntry(bytes: seq<byte>, c: nat, v: u32): (r: seq<byte>)
    requires Offset(c) + 1 < |bytes|
    ensures |r| == |bytes|
  {
    var s := Stored(bytes[Offset(c)], bytes[Offset(c) + 1], c, v);
    bytes[Offset(c) := s.0][Offset(c) + 1 := s.1]
  }

  /** Storing sets that entry, modulo 4096, and no other. */
  lemma StoringSetsOneEntry(bytes: seq<byte>, c: nat, v: u32, d: nat)
    requires Offset(c) + 1 < |bytes| && Offset(d) + 1 < |bytes|
    ensures Entry(WithEntry(bytes, c, v), d) == if d == c then v % 0x1000 else Entry(bytes, d)
  {
    if d == c {
      StoredReadsBack(bytes[Offset(c)], bytes[Offset(c) + 1], c, v);
    } else if d < c {
      assert Offset(d) + 1 < Offset(c) || (Offset(d) + 1 == Offset(c) && c % 2 == 1);
    } else {
      assert Offset(c) + 1 < Offset(d) || (Offset(c) + 1 == Offset(d) && d % 2 == 1);
    }
  }

  lemma StoredReadsBack(low: byte, high: byte, c: nat, v: u32)
    ensures var s := Stored(low, high, c, v);
      v % 0x1000 == if c % 2 == 1 then s.0 as int / 0x10 + 0x10 * s.1 as int
        else s.0 as int + 0x100 * (s.1 as int % 0x10)
  {
    if c % 2 == 1 {
      NibbleOut(v % 0x10, low % 0x10);
      LowDigits(v, 0x10, 0x100);
    } else {
      NibbleIn(high / 0x10, v / 0x100 % 0x10);
      LowDigits(v, 0x100, 0x10);
    }
  }

  lemma NibbleOut(x: nat, y: nat)
    requires y < 0x10
    ensures (0x10 * x + y) / 0x10 == x
  {
  }

  lemma NibbleIn(x: nat, y: nat)
    requires y < 0x10
    ensures (x * 0x10 + y) % 0x10 == y
  {
  }

  lemma LowDigits(v: nat, a: nat, b: nat)
    requires (a == 0x10 && b == 0x100) || (a == 0x100 && b == 0x10)
    ensures v % 0x1000 == v % a + a * (v / a % b)
  {
    var q := v / a;
    assert v == a * q + v % a && q == b * (q / b) + q % b;
    assert v == 0x1000 * (q / b) + (a * (q % b) + v % a);
  }

  /** The table a run of whole windows denotes. */
  ghost function Table(bytes: seq<byte>): (t: seq<nat>)
    requires |bytes| % WINDOW == 0
    ensures |t| == |bytes| / WINDOW * PER_WINDOW
  {
    seq(|bytes| / WINDOW * PER_WINDOW, c requires 0 <= c < |bytes| / WINDOW * PER_WINDOW => EntryIn(bytes, c))
  }

  ghost function EntryIn(bytes: seq<byte>, c: nat): nat
    requires |bytes| % WINDOW == 0 && c < |bytes| / WINDOW * PER_WINDOW
  {
    assert Offset(c) + 1 < |bytes|;
    Entry(bytes, c)
  }

  lemma TableAfterStore(bytes: seq<byte>, c: nat, v: u32)
    requires |bytes| % WINDOW == 0 && c < |bytes| / WINDOW * PER_WINDOW && Offset(c) + 1 < |bytes|
    ensures Table(WithEntry(bytes, c, v)) == Table(bytes)[c := v % 0x1000]
  {
    forall d: nat | d < |bytes| / WINDOW * PER_WINDOW ensures Offset(d) + 1 < |bytes|
      && Entry(WithEntry(bytes, c, v), d) == if d == c then v % 0x1000 else Entry(bytes, d)
    {
      StoringSetsOneEntry(bytes, c, v, d);
    }
  }

  /**
   * Three bytes hold two entries: the first one's low byte, then half a byte of each, then the second one's high
   * byte.
   */
  lemma PackedLayout(bytes: seq<byte>, i: nat)
    requires 3 * i + 2 < |bytes|
    ensures Offset(2 * i) + 1 < |bytes| && Offset(2 * i + 1) + 1 < |bytes|
    ensures Entry(bytes, 2 * i) == bytes[3 * i] as int + 0x100 * (bytes[3 * i + 1] as int % 0x10)
    ensures Entry(bytes, 2 * i + 1) == bytes[3 * i + 1] as int / 0x10 + 0x10 * bytes[3 * i + 2] as int
  {
    assert (2 * i) % 2 == 0 && (2 * i + 1) % 2 == 1;
  }

  lemma PackedExample()
    ensures Entry([0x23, 0x61, 0x45], 0) == 0x123 && Entry([0x23, 0x61, 0x45], 1) == 0x456
    ensures WithEntry([0x23, 0x61, 0x45], 1, 0xABC) == [0x23, 0xC1, 0xAB]
    ensures WithEntry([0x23, 0x61, 0x45], 0, 0xABC) == [0xBC, 0x6A, 0x45]
  {
  }

  // ---- Reserving a chain ----

  /** The free clusters from `first` up to but excluding `beyond`, ascending. */
  ghost function FreeIn(t: seq<nat>, first: nat, beyond: nat): seq<nat>
    requires beyond <= |t|
    decreases beyond
  {
    if beyond <= first then [] else
      FreeIn(t, first, beyond - 1) + if t[beyond - 1] == 0 then [beyond - 1] else []
  }

  ghost predicate Ascending(r: seq<nat>) {
    forall j, k :: 0 <= j < k < |r| ==> r[j] < r[k]
  }

  ghost predicate OnlyFree(t: seq<nat>, first: nat, beyond: nat, r: seq<nat>)
    requires beyond <= |t|
  {
    forall k :: 0 <= k < |r| ==> first <= r[k] < beyond && t[r[k]] == 0
  }

  ghost predicate AllFree(t: seq<nat>, first: nat, beyond: nat, r: seq<nat>)
    requires beyond <= |t|
  {
    forall c :: first <= c < beyond && t[c] == 0 ==> c in r
  }

  /** r lists the free clusters from `first` up to `beyond`: only those, all of them, in order. */
  ghost predicate ListsFree(t: seq<nat>, first: nat, beyond: nat, r: seq<nat>)
    requires beyond <= |t|
  {
    Ascending(r) && OnlyFree(t, first, beyond, r) && AllFree(t, first, beyond, r)
  }

  lemma {:induction false} FreeInIsEveryFreeCluster(t: seq<nat>, first: nat, beyond: nat)
    requires beyond <= |t|
    ensures ListsFree(t, first, beyond, FreeIn(t, first, beyond))
    decreases beyond
  {
    if first < beyond {
      FreeInIsEveryFreeCluster(t, first, beyond - 1);
      OneMoreListed(t, first, beyond, FreeIn(t, first, beyond - 1));
    }
  }

  lemma OneMoreListed(t: seq<nat>, first: nat, beyond: nat, rest: seq<nat>)
    requires first < beyond <= |t| && ListsFree(t, first, beyond - 1, rest)
    ensures ListsFree(t, first, beyond, rest + if t[beyond - 1] == 0 then [beyond - 1] else [])
  {
    hide Ascending, AllFree;
    if t[beyond - 1] == 0 {
      AscendingBy(rest, beyond - 1, t, first);
      AllFreeBy(t, first, beyond, rest);
    } else {
      AllFreeButLast(t, first, beyond, rest);
      assert rest + [] == rest;
    }
  }

  lemma AllFreeButLast(t: seq<nat>, first: nat, beyond: nat, rest: seq<nat>)
    requires first < beyond <= |t| && AllFree(t, first, beyond - 1, rest) && t[beyond - 1] != 0
    ensures AllFree(t, first, beyond, rest)
  {
  }

  lemma AscendingBy(rest: seq<nat>, c: nat, t: seq<nat>, first: nat)
    requires c < |t| && Ascending(rest) && OnlyFree(t, first, c, rest)
    ensures Ascending(rest + [c])
  {
  }

  lemma AllFreeBy(t: seq<nat>, first: nat, beyond: nat, rest: seq<nat>)
    requires first < beyond <= |t| && AllFree(t, first, beyond - 1, rest)
    ensures AllFree(t, first, beyond, rest + [beyond - 1])
  {
    var r := rest + [beyond - 1];
    assert r[|rest|] == beyond - 1;
    forall c | first <= c < beyond && t[c] == 0 ensures c in r {
      assert c < beyond - 1 ==> c in rest;
    }
  }

  lemma FreeInNext(t: seq<nat>, first: nat, beyond: nat)
    requires first <= beyond < |t|
    ensures FreeIn(t, first, beyond + 1) == FreeIn(t, first, beyond) + if t[beyond] == 0 then [beyond] else []
  {
  }

  lemma FreeInNone(t: seq<nat>, first: nat, beyond: nat)
    requires beyond <= |t| && beyond <= first
    ensures FreeIn(t, first, beyond) == []
  {
  }

  lemma {:induction false} FreeInGrows(t: seq<nat>, first: nat, a: nat, b: nat)
    requires a <= b <= |t|
    ensures FreeIn(t, first, a) <= FreeIn(t, first, b)
    decreases b
  {
    if a < b {
      FreeInGrows(t, first, a, b - 1);
    }
  }

  /** Every cluster listed points at the one listed after it. */
  ghost function Threaded(t: seq<nat>, list: seq<nat>): (r: seq<nat>)
    requires forall k :: 0 <= k < |list| - 1 ==> list[k] < |t|
    ensures |r| == |t|
    decreases |list|
  {
    var n := |list| - 1;
    if n < 1 then t else Threaded(t, list[..n])[list[n - 1] := list[n]]
  }

  lemma {:induction false} ThreadedLinks(t: seq<nat>, list: seq<nat>, k: nat)
    requires forall i :: 0 <= i < |list| - 1 ==> list[i] < |t|
    requires list != [] && Ascending(list[..|list| - 1])
    requires k < |list| - 1
    ensures Threaded(t, list)[list[k]] == list[k + 1]
    decreases |list|
  {
    var n := |list| - 1;
    if k < n - 1 {
      ThreadedLinks(t, list[..n], k);
      assert list[k] < list[n - 1];
    }
  }

  lemma {:induction false} ThreadedElsewhere(t: seq<nat>, list: seq<nat>, c: nat)
    requires forall i :: 0 <= i < |list| - 1 ==> list[i] < |t|
    requires c < |t| && forall i :: 0 <= i < |list| - 1 ==> list[i] != c
    ensures Threaded(t, list)[c] == t[c]
    decreases |list|
  {
    if |list| > 1 {
      ThreadedElsewhere(t, list[..|list| - 1], c);
    }
  }

  /** The clusters met from c on by following links up to the end marker, at most `steps` of them. */
  ghost function Walk(t: seq<nat>, c: nat, steps: nat): seq<nat>
    decreases steps
  {
    if steps == 0 || c >= |t| || c >= 0xff8 then [] else [c] + Walk(t, t[c], steps - 1)
  }

  lemma {:induction false} ThreadedIsWalked(t: seq<nat>, list: seq<nat>, k: nat)
    requires forall i :: 0 <= i < |list| - 1 ==> list[i] < |t| && list[i] < 0xff8
    requires list != [] && Ascending(list[..|list| - 1])
    requires k < |list| && list[|list| - 1] == 0xfff
    ensures Walk(Threaded(t, list), list[k], |list| - 1 - k) == list[k..|list| - 1]
    decreases |list| - k
  {
    if k < |list| - 1 {
      ThreadedLinks(t, list, k);
      ThreadedIsWalked(t, list, k + 1);
      assert list[k..|list| - 1] == [list[k]] + list[k + 1..|list| - 1];
    }
  }

  /**
   * What a successful reserve_chain returns and leaves: the first n free clusters, closed with the end marker and
   * threaded.
   */
  ghost predicate Reserved(t: seq<nat>, after: seq<nat>, list: seq<nat>, n: nat, sectors: nat)
    requires sectors < |t|
  {
    var free := FreeIn(t, 2, sectors + 1);
    && |list| == n + 1 && list[n] == 0xfff && n <= |free| && list[..n] == free[..n]
    && (forall k :: 0 <= k < |list| - 1 ==> list[k] < |t|)
    && after == Threaded(t, list)
  }

  lemma ReservedInOrder(t: seq<nat>, after: seq<nat>, list: seq<nat>, n: nat, sectors: nat)
    requires sectors < |t| && Reserved(t, after, list, n, sectors)
    ensures forall k :: 0 <= k < n ==> 2 <= list[k] <= sectors && t[list[k]] == 0
    ensures Ascending(list[..n])
  {
    var free := FreeIn(t, 2, sectors + 1);
    FreeInIsEveryFreeCluster(t, 2, sectors + 1);
    forall k | 0 <= k < n ensures list[k] == free[k] {
      assert list[k] == list[..n][k] && free[k] == free[..n][k];
    }
    assert list[..n] == free[..n];
  }

  /**
   * Such a chain runs through exactly n clusters, all free before and in ascending order, and no other entry changes.
   */
  lemma ReservedIsAChain(t: seq<nat>, after: seq<nat>, list: seq<nat>, n: nat, sectors: nat)
    requires sectors < |t| && sectors < 0xff8 && 0 < n && Reserved(t, after, list, n, sectors)
    ensures Walk(after, list[0], n) == list[..n]
    ensures forall k :: 0 <= k < n ==> 2 <= list[k] <= sectors && t[list[k]] == 0
    ensures Ascending(list[..n])
    ensures forall c :: 0 <= c < |t| && c !in list[..n] ==> after[c] == t[c]
  {
    hide FreeIn, Threaded, Walk;
    ReservedInOrder(t, after, list, n, sectors);
    ThreadedIsWalked(t, list, 0);
    forall c | 0 <= c < |t| && c !in list[..n] ensures after[c] == t[c] {
      assert forall i :: 0 <= i < n ==> list[i] in list[..n];
      ThreadedElsewhere(t, list, c);
    }
  }
}
