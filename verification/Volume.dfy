/**
 * The mounted partition: a one-sector write-back cache over two FAT copies, and the operations on links and clusters.
 */
module Fat32Volume {
  import opened Bytes
  import opened BlockDevice
  import opened FatTable
  import opened FatCache

  datatype ClusterAction = ReadPart | WritePart | Idle

  class Volume {
    const dev: Device
    const geometry: Geometry
    const rootCluster: u32

    const buffer: array<u32>
    var currentSector: nat
    var bufferLoaded: bool
    var bufferChanged: bool

    /** What the volume means: the primary table overlaid by the cache, and the clusters. */
    ghost var store: Store

    constructor (dev: Device, reservedSectors: nat, sectorsPerFat: nat, rootCluster: u32)
      requires Sound(GeometryOf(reservedSectors, sectorsPerFat), Unmounted(dev.disk), dev.reliable)
      ensures Valid() && !Dirty(Image()) && fresh(buffer)
      ensures this.dev == dev && this.rootCluster == rootCluster
    {
      this.dev := dev;
      this.geometry := GeometryOf(reservedSectors, sectorsPerFat);
      this.rootCluster := rootCluster;
      this.buffer := new u32[128];
      this.currentSector := 0;
      this.bufferLoaded := false;
      this.bufferChanged := false;
      new;
      store := Meaning(geometry, Image());
      if dev.reliable {
        forall k | 0 <= k < sectorsPerFat ensures Agree(geometry, dev.disk, k) {
          assert Agree(geometry, Unmounted(dev.disk).disk, k);
        }
      }
    }

    ghost function Image(): Image
      reads this, dev, buffer
    {
      FatCache.Image(dev.disk, buffer[..], currentSector, bufferLoaded, bufferChanged)
    }

    ghost predicate Valid()
      reads this, dev, buffer
    {
      && Sound(geometry, Image(), dev.reliable)
      && store == Meaning(geometry, Image())
      && |store.fat| == |store.data| == 128 * geometry.sectorsPerFat
    }

    /** The volume would be valid, with the same meaning, had `s` not been written to this sector of the device. */
    ghost predicate Struck(sector: nat, s: Sector)
      reads this, dev, buffer
    {
      exists disk: seq<Sector> ::
        && Sound(geometry, Image().(disk := disk), dev.reliable)
        && store == Meaning(geometry, Image().(disk := disk))
        && dev.disk == if sector < |disk| then disk[sector := s] else disk
    }

    /**
     * Whatever the device does, the table survives: a changed sector is given up only once its primary copy is
     * written.
     */
    method SaveCurrentFat() returns (ok: bool)
      requires Valid()
      modifies this, dev
      ensures Valid() && store == old(store)
      ensures bufferLoaded == old(bufferLoaded) && currentSector == old(currentSector)
      ensures dev.reliable ==> ok
      ensures ok ==> !Dirty(Image())
    {
      if !bufferChanged || !bufferLoaded {
        return true;
      }
      ghost var before := Image();
      ok := dev.Write(Pack(buffer[..]), currentSector + geometry.fatOffset);
      if !ok {
        return;
      }
      ok := dev.Write(Pack(buffer[..]), currentSector + geometry.fatOffset + geometry.sectorsPerFat);
      bufferChanged := false;
      WriteBack(geometry, before, Image(), ok, dev.reliable);
    }

    method LoadFatSector(sector: nat) returns (ok: bool)
      requires Valid() && sector < geometry.sectorsPerFat
      modifies this, dev, buffer
      ensures Valid() && store == old(store)
      ensures ok ==> bufferLoaded && currentSector == sector
      ensures dev.reliable ==> ok
    {
      if currentSector == sector && bufferLoaded {
        return true;
      }
      ok := SaveCurrentFat();
      if !ok {
        return;
      }
      var s;
      ok, s := dev.Read(sector + geometry.fatOffset);
      if ok {
        ghost var before := Image();
        forall k | 0 <= k < 128 {
          buffer[k] := Words(s)[k];
        }
        assert buffer[..] == Words(s);
        bufferLoaded := true;
        currentSector := sector;
        Loaded(geometry, before, Image(), sector, dev.reliable);
      }
    }

    method GetNextCluster(cluster: u32) returns (next: u32)
      requires Valid() && cluster < 128 * geometry.sectorsPerFat
      modifies this, dev, buffer
      ensures Valid() && store == old(store)
      ensures dev.reliable ==> next == store.fat[cluster]
    {
      var ok := LoadFatSector(cluster / 128);
      next := buffer[cluster % 128];
      if ok {
        CachedLink(geometry, Image(), cluster);
      }
    }

    /** The two statements that follow every load: change one cached word and mark the sector dirty. */
    method SetCachedLink(cluster: u32, link: u32)
      requires Valid() && cluster < 128 * geometry.sectorsPerFat
      requires bufferLoaded && currentSector == cluster / 128
      modifies this, buffer
      ensures Valid() && store == Store(old(store).fat[cluster := link], old(store).data)
    {
      ghost var before := Image();
      buffer[cluster % 128] := link;
      bufferChanged := true;
      store := Store(store.fat[cluster := link], store.data);
      assert Image().buf == before.buf[cluster % 128 := link];
      LinkChanged(geometry, before, Image(), cluster, link, dev.reliable);
    }

    /** Two point updates; a device error can stop it before the first or between them, and nowhere else. */
    method ChangeFat(end: u32, newCluster: u32)
      requires Valid() && end < 128 * geometry.sectorsPerFat && newCluster < 128 * geometry.sectorsPerFat
      modifies this, dev, buffer
      ensures Valid() && store.data == old(store).data
      ensures var fat := old(store).fat; store.fat in [fat, fat[end := newCluster], Linked(fat, end, newCluster)]
      ensures dev.reliable ==> store.fat == Linked(old(store).fat, end, newCluster) && !Dirty(Image())
    {
      var ok := LoadFatSector(end / 128);
      if !ok {
        return;
      }
      SetCachedLink(end, newCluster);
      ok := LoadFatSector(newCluster / 128);
      if !ok {
        return;
      }
      SetCachedLink(newCluster, END_MARK);
      ok := SaveCurrentFat();
    }

    method FindEmptyCluster() returns (cluster: u32)
      requires Valid()
      modifies this, dev, buffer
      ensures Valid() && store == old(store)
      ensures cluster == 0 || 2 <= cluster < 128 * geometry.sectorsPerFat
      ensures dev.reliable ==> cluster == FirstFree(store.fat)
    {
      for i := 2 to 128 * geometry.sectorsPerFat
        invariant Valid() && store == old(store)
        invariant dev.reliable ==> FirstFree(store.fat) == FirstFreeFrom(store.fat, i)
      {
        var link := GetNextCluster(i);
        if link == 0 {
          return i;
        }
      }
      return 0;
    }

    method ReadCluster(cluster: u32) returns (ok: bool, s: Sector)
      requires Valid() && 2 <= cluster < 128 * geometry.sectorsPerFat
      ensures ok ==> s == store.data[cluster]
      ensures dev.reliable ==> ok
    {
      ok, s := dev.Read(geometry.dataOffset + cluster - 2);
    }

    /** Nothing checks that the cluster exists: any number is written to the sector it comes out at. */
    method WriteCluster(cluster: u32, s: Sector) returns (ok: bool)
      requires Valid()
      modifies this`store, dev
      ensures ok ==> SectorOf(geometry, cluster) < |old(dev.disk)|
      ensures dev.disk == if ok then old(dev.disk)[SectorOf(geometry, cluster) := s] else old(dev.disk)
      ensures !ok ==> Valid() && store == old(store)
      ensures ok && 2 <= cluster < 128 * geometry.sectorsPerFat ==>
        Valid() && store == Store(old(store.fat), old(store.data)[cluster := s])
      ensures !(2 <= cluster < 128 * geometry.sectorsPerFat) && dev.reliable ==>
        store == old(store) && Struck(SectorOf(geometry, cluster), s)
      ensures dev.reliable && SectorOf(geometry, cluster) < |old(dev.disk)| ==> ok
      ensures dev.reliable && 2 <= cluster < 128 * geometry.sectorsPerFat ==> ok
    {
      ghost var before := Image();
      WhereSectorsLie(geometry, before, cluster);
      ok := dev.Write(s, SectorOf(geometry, cluster));
      if ok && 2 <= cluster < 128 * geometry.sectorsPerFat {
        store := Store(store.fat, store.data[cluster := s]);
        ClusterChanged(geometry, before, Image(), cluster, s, dev.reliable);
      }
      assert Image().(disk := before.disk) == before;
    }

    /** Even on a failing device a claim zeroes one cluster and stops before, between or after its two link updates. */
    static ghost predicate PartlyClaimed(st: Store, tail: nat, cluster: nat, st': Store) {
      var end := if tail == 0 then cluster else tail;
      && 2 <= cluster < |st.fat| == |st.data| < END_MIN && end < |st.fat|
      && st'.data == st.data[cluster := ZeroSector()]
      && st'.fat in [st.fat, st.fat[end := cluster], Linked(st.fat, end, cluster)]
    }

    /** Picks the least free cluster, zeroes it and hangs it behind `tail`; 0, and no change, when the disk is full. */
    method AllocateCluster(tail: u32) returns (cluster: u32)
      requires Valid() && Shaped(store)
      requires tail == 0 || 2 <= tail < 128 * geometry.sectorsPerFat || (dev.reliable && FirstFree(store.fat) == 0)
      modifies this, dev, buffer
      ensures Valid()
      ensures dev.reliable ==> cluster == FirstFree(old(store).fat)
      ensures dev.reliable && tail < |old(store).fat| ==> store == Claim(old(store), tail)
      ensures dev.reliable && cluster != 0 ==> !Dirty(Image())
      ensures cluster == 0 ==> store == old(store)
      ensures cluster != 0 ==> PartlyClaimed(old(store), tail, cluster, store)
    {
      hide SectorOf, Struck, Sound, Meaning;
      cluster := FindEmptyCluster();
      if cluster == 0 {
        return;
      }
      var ok := WriteCluster(cluster, ZeroSector());
      if !ok {
        return 0;
      }
      var end := if tail == 0 then cluster else tail;
      ChangeFat(end, cluster);
    }

    method ReadPartCluster(cluster: u32, out: array<byte>, at: nat, size: nat, offset: nat) returns (ok: bool)
      requires Valid() && 2 <= cluster < 128 * geometry.sectorsPerFat
      requires offset + size <= 512 && at + size <= out.Length
      modifies out
      ensures Valid() && store == old(store)
      ensures out[..] == if ok then Splice(old(out[..]), at, store.data[cluster][offset..offset + size])
        else old(out[..])
      ensures dev.reliable ==> ok
    {
      var s;
      ok, s := ReadCluster(cluster);
      if !ok {
        return;
      }
      forall k | 0 <= k < size {
        out[at + k] := s[offset + k];
      }
      assert out[..] == Splice(old(out[..]), at, s[offset..offset + size]);
    }

    method WritePartCluster(cluster: u32, bytes: seq<byte>, offset: nat) returns (ok: bool)
      requires Valid() && 2 <= cluster < 128 * geometry.sectorsPerFat
      requires offset + |bytes| <= 512
      modifies this`store, dev
      ensures Valid()
      ensures store == if ok then PutPart(old(store), cluster, offset, bytes) else old(store)
      ensures dev.reliable ==> ok
    {
      var s;
      ok, s := ReadCluster(cluster);
      if !ok {
        return;
      }
      ok := WriteCluster(cluster, Splice(s, offset, bytes));
    }

    /** One step of every walk: act on the cluster, then move to the next one, claiming it if asked to. */
    method TraverseFat(io: array<byte>, at: nat, cluster: u32, size: nat, offset: nat, action: ClusterAction,
                       allocating: bool)
      returns (next: u32)
      requires Valid() && dev.reliable && Shaped(store)
      requires Closed(cluster) || 2 <= cluster < 128 * geometry.sectorsPerFat
      requires offset + size <= 512 && at + size <= io.Length
      modifies this, dev, buffer, io
      ensures Valid()
      ensures Closed(cluster) ==> next == 0 && store == old(store) && io[..] == old(io[..])
      ensures !Closed(cluster) ==>
        var acted := if action.WritePart? then PutPart(old(store), cluster, offset, old(io[at..at + size]))
          else old(store);
        (store, next) == Advance(acted, cluster, allocating)
      ensures !Closed(cluster) ==>
        io[..] == if action.ReadPart? then Splice(old(io[..]), at, old(store.data[cluster])[offset..offset + size])
                  else old(io[..])
    {
      if Closed(cluster) {
        return 0;
      }
      match action {
        case ReadPart => var _ := ReadPartCluster(cluster, io, at, size, offset);
        case WritePart => var _ := WritePartCluster(cluster, io[at..at + size], offset);
        case Idle =>
      }
      next := GetNextCluster(cluster);
      if END_MIN <= next && allocating {
        next := AllocateCluster(cluster);
      }
    }

    method FreeLink(cluster: u32) returns (next: u32)
      requires Valid() && dev.reliable && cluster < 128 * geometry.sectorsPerFat
      modifies this, dev, buffer
      ensures Valid() && next == old(store).fat[cluster]
      ensures store == Store(old(store).fat[cluster := 0], old(store).data)
    {
      next := GetNextCluster(cluster);
      var _ := LoadFatSector(cluster / 128);
      SetCachedLink(cluster, 0);
    }

    /** Frees what the links out of `start` lead to, and leaves nothing unsaved. */
    method DeleteFatChain(start: u32) returns (ok: bool)
      requires Valid() && dev.reliable && Shaped(store)
      requires Follows(start) ==> start < 128 * geometry.sectorsPerFat
      modifies this, dev, buffer
      ensures Valid() && !Dirty(Image()) && ok
      ensures store == Store(Release(old(store).fat, start), old(store).data)
    {
      var current: u32 := start;
      while Follows(current)
        invariant Valid() && Shaped(store) && store.data == old(store).data
        invariant Follows(current) ==> current < 128 * geometry.sectorsPerFat
        invariant Release(store.fat, current) == Release(old(store).fat, start)
        decreases Used(store.fat), if Follows(current) then 1 else 0
      {
        ReleaseStep(store.fat, current);
        current := FreeLink(current);
      }
      ok := SaveCurrentFat();
    }
  }
}
