/** The FAT12 window cache of archive/fat12.c and the reservation of chains through it. */
module Fat12 {
  import opened Bytes
  import opened Fat12Table

  const NOTHING_LOADED: u32 := 0xFFFFFFFF

  predicate InWindow(p: nat, sector: u32) {
    512 * sector <= p < 512 * sector + WINDOW
  }

  /** Both copies of the table on the device, with the cached window laid over them, read as `bytes`. */
  ghost predicate Denotes(area: seq<byte>, window: seq<byte>, sector: u32, changed: bool, bytes: seq<byte>) {
    && |area| == 2 * |bytes| && |window| == WINDOW
    && (forall p :: 0 <= p < |bytes| && InWindow(p, sector) ==> window[p - 512 * sector] == bytes[p])
    && (forall p :: 0 <= p < |bytes| && !InWindow(p, sector) ==> area[p] == bytes[p] && area[|bytes| + p] == bytes[p])
    && (!changed ==> area == bytes + bytes)
  }

  lemma StoreDenotes(area: seq<byte>, window: seq<byte>, sector: u32, changed: bool, bytes: seq<byte>, c: nat, v: u32)
    requires Denotes(area, window, sector, changed, bytes)
    requires 512 * sector <= Offset(c) && Offset(c) + 1 < 512 * sector + WINDOW && Offset(c) + 1 < |bytes|
    ensures var at := Offset(c) - 512 * sector;
      var s := Stored(window[at], window[at + 1], c, v);
      Denotes(area, window[at := s.0][at + 1 := s.1], sector, true, WithEntry(bytes, c, v))
  {
    assert window[Offset(c) - 512 * sector] == bytes[Offset(c)];
    assert window[Offset(c) + 1 - 512 * sector] == bytes[Offset(c) + 1];
  }

  lemma LoadDenotes(area: seq<byte>, window: seq<byte>, sector: u32, bytes: seq<byte>)
    requires area == bytes + bytes && 512 * sector + WINDOW <= |bytes|
    requires window == area[512 * sector..512 * sector + WINDOW]
    ensures Denotes(area, window, sector, false, bytes)
  {
  }

  /** A window that holds nothing yet, or a whole one inside the table. */
  predicate Placed(sector: u32, changed: bool, sectorsPerFat: nat) {
    if sector == NOTHING_LOADED then !changed else sector % 3 == 0 && sector < sectorsPerFat
  }

  class FatBuffer {
    const sectorsPerFat: nat
    const buffer: array<byte>
    var currentSector: u32
    var changed: bool
    /** The device from the first FAT to the end of the second. */
    var area: seq<byte>
    ghost var bytes: seq<byte>

    ghost predicate Valid()
      reads this, buffer
    {
      && 0 < sectorsPerFat < 0x1_0000 && WholeWindows(sectorsPerFat, |bytes|)
      && |area| == 1024 * sectorsPerFat && buffer.Length == WINDOW
      && Placed(currentSector, changed, sectorsPerFat)
      && Denotes(area, buffer[..], currentSector, changed, bytes)
    }

    ghost function Entries(): nat {
      sectorsPerFat / 3 * PER_WINDOW
    }

    ghost function Now(): (t: seq<nat>)
      requires Valid()
      reads this, buffer
      ensures |t| == Entries()
    {
      Table(bytes)
    }

    constructor (sectors: nat, device: seq<byte>)
      requires 0 < sectors < 0x1_0000 && sectors % 3 == 0 && |device| == 1024 * sectors
      requires device[..512 * sectors] == device[512 * sectors..]
      ensures Valid() && area == device && bytes == device[..512 * sectors] && fresh(buffer)
    {
      ThreeSectorsAWindow(sectors);
      sectorsPerFat := sectors;
      buffer := new byte[WINDOW](_ => 0);
      currentSector := NOTHING_LOADED;
      changed := false;
      area := device;
      bytes := device[..512 * sectors];
    }

    /** A changed window is written to both copies, which then agree with the table. */
    method Flush()
      requires Valid()
      modifies this`area, this`changed
      ensures Valid() && !changed && area == bytes + bytes
    {
      if changed {
        area := Splice(area, 512 * currentSector, buffer[..]);
        area := Splice(area, 512 * sectorsPerFat + 512 * currentSector, buffer[..]);
        changed := false;
        assert area == bytes + bytes;
      }
    }

    /** get_entry_offset: the window of entry c is cached, whatever was cached is kept, and the table is what it was. */
    method GetEntryOffset(c: u32) returns (offset: nat)
      requires Valid() && c < Entries()
      modifies this`area, this`changed, this`currentSector, buffer
      ensures Valid()
      ensures offset == Offset(c) % WINDOW && offset + 1 < WINDOW && Offset(c) == 512 * currentSector + offset
      ensures currentSector != NOTHING_LOADED
    {
      hide Denotes;
      WindowOf(c, sectorsPerFat);
      var sectorToLoad := Offset(c) / 512;
      if sectorToLoad / 3 != currentSector / 3 {
        Flush();
        currentSector := sectorToLoad / 3 * 3;
        FillBuffer(area[512 * currentSector..512 * currentSector + WINDOW]);
        LoadDenotes(area, buffer[..], currentSector, bytes);
      }
      offset := Offset(c) % WINDOW;
    }

    method FillBuffer(window: seq<byte>)
      requires |window| == WINDOW == buffer.Length
      modifies buffer
      ensures buffer[..] == window
    {
      forall k | 0 <= k < WINDOW {
        buffer[k] := window[k];
      }
    }

    method ReadFatValue(c: u32) returns (value: u32)
      requires Valid() && c < Entries()
      modifies this`area, this`changed, this`currentSector, buffer
      ensures Valid() && value == Now()[c]
    {
      var offset := GetEntryOffset(c);
      if c % 2 == 1 {
        value := buffer[offset] / 0x10 + 0x10 * (buffer[offset + 1] as int);
      } else {
        value := buffer[offset] as int + 0x100 * (buffer[offset + 1] as int % 0x10);
      }
      assert bytes[Offset(c)] == buffer[offset] && bytes[Offset(c) + 1] == buffer[offset + 1];
    }

    /** write_fat_value: one entry changes, across any eviction. */
    method WriteFatValue(c: u32, value: u32)
      requires Valid() && c < Entries()
      modifies this`area, this`changed, this`currentSector, this`bytes, buffer
      ensures Valid() && Now() == old(Now())[c := value % 0x1000]
    {
      hide Denotes;
      var offset := GetEntryOffset(c);
      ghost var window := buffer[..];
      StoreDenotes(area, window, currentSector, changed, bytes, c, value);
      TableAfterStore(bytes, c, value);
      if c % 2 == 1 {
        buffer[offset] := 0x10 * (value % 0x10) + buffer[offset] % 0x10;
        buffer[offset + 1] := value / 0x10 % 0x100;
      } else {
        buffer[offset] := value % 0x100;
        buffer[offset + 1] := buffer[offset + 1] / 0x10 * 0x10 + value / 0x100 % 0x10;
      }
      ghost var s := Stored(window[offset], window[offset + 1], c, value);
      assert buffer[..] == window[offset := s.0][offset + 1 := s.1];
      changed := true;
      bytes := WithEntry(bytes, c, value);
    }

    /**
     * reserve_chain: null exactly when too few clusters are free, otherwise the first free ones, threaded and
     * flushed.
     */
    method ReserveChain(clusters: u32, sectors: u32) returns (list: array?<u32>)
      requires Valid() && sectors < Entries() && sectors < 0x1000 && clusters < 0x3FFF_FFFF
      modifies this`area, this`changed, this`currentSector, this`bytes, buffer
      ensures Valid()
      ensures list == null <==> |FreeIn(old(Now()), 2, sectors + 1)| < clusters
      ensures list == null ==> Now() == old(Now())
      ensures list != null ==>
        fresh(list) && Reserved(old(Now()), Now(), list[..], clusters, sectors)
        && !changed && area == bytes + bytes
    {
      hide Denotes, Table, FreeIn, Threaded;
      ghost var t := Now();
      var enough, found := FindFree(clusters, sectors);
      if !enough {
        return null;
      }
      FreeInIsEveryFreeCluster(t, 2, sectors + 1);
      assert forall k :: 0 <= k < clusters ==> found[k] == FreeIn(t, 2, sectors + 1)[..clusters][k];
      ThreadClusters(found, clusters, t);
      Flush();
      list := found;
    }

    /** The scan of reserve_chain: it stops early exactly when the first `clusters` free ones are found. */
    method FindFree(clusters: u32, sectors: u32) returns (enough: bool, found: array<u32>)
      requires Valid() && sectors < Entries() && sectors < 0x1000 && clusters < 0x3FFF_FFFF
      modifies this`area, this`changed, this`currentSector, buffer
      ensures Valid() && fresh(found)
      ensures enough <==> clusters <= |FreeIn(Now(), 2, sectors + 1)|
      ensures enough ==>
        found.Length == clusters + 1 && found[clusters] == 0xfff
        && found[..clusters] == FreeIn(Now(), 2, sectors + 1)[..clusters]
    {
      hide Denotes, FreeIn, Table;
      ghost var t := Now();
      found := new u32[clusters + 1](_ => 0);
      var marked: u32, current: u32 := 0, 2;
      FreeInNone(t, 2, 2);
      while marked < clusters
        invariant Valid() && Now() == t && fresh(found)
        invariant marked <= clusters && 2 <= current <= Entries() && (current <= sectors + 1 || current == 2)
        invariant found[..marked] == FreeIn(t, 2, current)
        decreases sectors + 1 - current
      {
        if current > sectors {
          if sectors < 2 {
            FreeInNone(t, 2, sectors + 1);
          }
          return false, found;
        }
        FreeInNext(t, 2, current);
        var value := ReadFatValue(current);
        if value == 0 {
          found[marked] := current;
          marked := marked + 1;
        }
        current := current + 1;
      }
      found[marked] := 0xfff;
      enough := true;
      if current <= sectors + 1 {
        FreeInGrows(t, 2, current, sectors + 1);
      }
    }

    /** The links reserve_chain writes: each cluster listed points at the next. */
    method ThreadClusters(list: array<u32>, clusters: u32, ghost t: seq<nat>)
      requires Valid() && list.Length == clusters + 1 && Now() == t
      requires forall k :: 0 <= k < clusters ==> list[k] < |t|
      requires forall k :: 0 <= k <= clusters ==> list[k] < 0x1000
      modifies this`area, this`changed, this`currentSector, this`bytes, buffer
      ensures Valid() && Now() == Threaded(t, list[..])
    {
      hide Denotes, Table;
      ghost var l := list[..];
      for i := 0 to clusters
        invariant Valid() && list[..] == l
        invariant Now() == Threaded(t, l[..i + 1])
      {
        assert l[..i + 2][..i + 1] == l[..i + 1];
        WriteFatValue(list[i], list[i + 1]);
      }
      assert l[..clusters + 1] == l;
    }
  }
}
