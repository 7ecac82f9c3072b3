/** How a disk image, overlaid by the one cached FAT sector, denotes a flat table and an array of clusters. */
module FatCache {
  import opened Bytes
  import opened FatTable

  datatype Geometry = Geometry(fatOffset: nat, sectorsPerFat: nat, dataOffset: nat)

  /** A mounted volume as a value: the device's sectors and the fields of the cache. */
  datatype Image = Image(disk: seq<Sector>, buf: seq<u32>, current: nat, loaded: bool, changed: bool)

  /** Two tables of `sectorsPerFat` sectors follow the reserved sectors, and the data area follows them. */
  function GeometryOf(reservedSectors: nat, sectorsPerFat: nat): Geometry {
    Geometry(reservedSectors, sectorsPerFat, reservedSectors + 2 * sectorsPerFat)
  }

  /** The image at mount time, before any FAT sector is cached. */
  function Unmounted(disk: seq<Sector>): Image {
    Image(disk, seq(128, _ => 0), 0, false, false)
  }

  ghost predicate Fits(g: Geometry, im: Image) {
    && 0 < g.sectorsPerFat < 0x1_0000
    && g.dataOffset == g.fatOffset + 2 * g.sectorsPerFat
    && g.dataOffset + 128 * g.sectorsPerFat - 2 <= |im.disk| <= 0x1_0000_0000
    && |im.buf| == 128
    && (im.loaded ==> im.current < g.sectorsPerFat)
  }

  ghost predicate Dirty(im: Image) {
    im.loaded && im.changed
  }

  /** A cached sector that has not been changed equals its primary copy. */
  ghost predicate Coherent(g: Geometry, im: Image)
    requires Fits(g, im)
  {
    im.loaded && !im.changed ==> Words(im.disk[g.fatOffset + im.current]) == im.buf
  }

  /** Sector s of the primary table equals sector s of its mirror. */
  ghost predicate Agree(g: Geometry, disk: seq<Sector>, s: nat)
    requires g.fatOffset + 2 * g.sectorsPerFat <= |disk| && s < g.sectorsPerFat
  {
    disk[g.fatOffset + s] == disk[g.fatOffset + g.sectorsPerFat + s]
  }

  /** Both copies agree, save for the one sector whose newest words are still only in the cache. */
  ghost predicate Mirrored(g: Geometry, im: Image)
    requires Fits(g, im)
  {
    forall s :: 0 <= s < g.sectorsPerFat && !(Dirty(im) && s == im.current) ==> Agree(g, im.disk, s)
  }

  ghost predicate Sound(g: Geometry, im: Image, reliable: bool) {
    Fits(g, im) && Coherent(g, im) && (reliable ==> Mirrored(g, im))
  }

  ghost function LinkAt(g: Geometry, im: Image, c: nat): u32
    requires Fits(g, im) && c < 128 * g.sectorsPerFat
  {
    if im.loaded && c / 128 == im.current then im.buf[c % 128]
    else Words(im.disk[g.fatOffset + c / 128])[c % 128]
  }

  /** Cluster c lives in sector dataOffset + c - 2; there are no clusters 0 and 1. */
  ghost function ClusterAt(g: Geometry, im: Image, c: nat): Sector
    requires Fits(g, im) && c < 128 * g.sectorsPerFat
  {
    if c < 2 then ZeroSector() else im.disk[g.dataOffset + c - 2]
  }

  ghost function Meaning(g: Geometry, im: Image): (st: Store)
    requires Fits(g, im)
    ensures |st.fat| == |st.data| == 128 * g.sectorsPerFat
  {
    Store(seq(128 * g.sectorsPerFat, c requires 0 <= c < 128 * g.sectorsPerFat => LinkAt(g, im, c)),
          seq(128 * g.sectorsPerFat, c requires 0 <= c < 128 * g.sectorsPerFat => ClusterAt(g, im, c)))
  }

  /** The sector the code addresses for a cluster: its 32-bit sum wraps, and clusters 0 and 1 fall into the FAT area. */
  function SectorOf(g: Geometry, c: u32): nat {
    (g.dataOffset + c - 2) % 0x1_0000_0000
  }

  /** The sector of a cluster lies in the data area for the clusters of the volume, in the FAT area for 0 and 1. */
  lemma WhereSectorsLie(g: Geometry, im: Image, c: u32)
    requires Fits(g, im)
    ensures 2 <= c < 128 * g.sectorsPerFat ==> SectorOf(g, c) == g.dataOffset + c - 2 < |im.disk|
    ensures c < 2 ==> g.fatOffset <= SectorOf(g, c) == g.dataOffset + c - 2 < g.dataOffset
  {
  }

  /** Writing the cached words to the primary copy, and then perhaps to the mirror, keeps the meaning. */
  lemma WriteBack(g: Geometry, im: Image, im': Image, both: bool, reliable: bool)
    requires Sound(g, im, reliable) && Dirty(im)
    requires var primary := im.disk[g.fatOffset + im.current := Pack(im.buf)];
      im' == im.(disk := if both then primary[g.fatOffset + g.sectorsPerFat + im.current := Pack(im.buf)] else primary,
                 changed := false)
    requires reliable ==> both
    ensures Sound(g, im', reliable) && Meaning(g, im') == Meaning(g, im)
  {
    hide Word, Words, Pack;
    PackThenWords(im.buf);
    assert Words(im'.disk[g.fatOffset + im.current]) == im.buf;
    if reliable {
      forall s | 0 <= s < g.sectorsPerFat ensures Agree(g, im'.disk, s) {
        if s != im.current {
          assert Agree(g, im.disk, s);
        }
      }
    }
  }

  /** A sector just read into the clean cache means what it meant on disk. */
  lemma Loaded(g: Geometry, im: Image, im': Image, sector: nat, reliable: bool)
    requires Sound(g, im, reliable) && !Dirty(im) && sector < g.sectorsPerFat
    requires im' == im.(buf := Words(im.disk[g.fatOffset + sector]), current := sector, loaded := true)
    ensures Sound(g, im', reliable) && Meaning(g, im') == Meaning(g, im)
  {
    if reliable {
      forall s | 0 <= s < g.sectorsPerFat ensures Agree(g, im'.disk, s) {
        assert Agree(g, im.disk, s);
      }
    }
  }

  lemma CachedLink(g: Geometry, im: Image, c: nat)
    requires Fits(g, im) && c < 128 * g.sectorsPerFat && im.loaded && im.current == c / 128
    ensures Meaning(g, im).fat[c] == im.buf[c % 128]
  {
  }

  /** Changing one cached word is a point update of the table. */
  lemma LinkChanged(g: Geometry, im: Image, im': Image, c: nat, v: u32, reliable: bool)
    requires Sound(g, im, reliable) && c < 128 * g.sectorsPerFat && im.loaded && im.current == c / 128
    requires im' == im.(buf := im.buf[c % 128 := v], changed := true)
    ensures Sound(g, im', reliable)
    ensures Meaning(g, im') == Store(Meaning(g, im).fat[c := v], Meaning(g, im).data)
  {
    if reliable {
      forall s | 0 <= s < g.sectorsPerFat && s != im.current ensures Agree(g, im'.disk, s) {
        assert Agree(g, im.disk, s);
      }
    }
    var st, st' := Meaning(g, im), Meaning(g, im');
    assert st'.data == st.data;
    forall k | 0 <= k < |st.fat| ensures st'.fat[k] == st.fat[c := v][k] {
      assert k / 128 == c / 128 && k % 128 == c % 128 ==> k == c;
    }
    assert st'.fat == st.fat[c := v];
  }

  /** A write to the data area changes one cluster and no link. */
  lemma ClusterChanged(g: Geometry, im: Image, im': Image, c: nat, s: Sector, reliable: bool)
    requires Sound(g, im, reliable) && 2 <= c < 128 * g.sectorsPerFat
    requires im' == im.(disk := im.disk[g.dataOffset + c - 2 := s])
    ensures Sound(g, im', reliable)
    ensures Meaning(g, im') == Store(Meaning(g, im).fat, Meaning(g, im).data[c := s])
  {
    if reliable {
      forall k | 0 <= k < g.sectorsPerFat && !(Dirty(im) && k == im.current) ensures Agree(g, im'.disk, k) {
        assert Agree(g, im.disk, k);
      }
    }
    var st, st' := Meaning(g, im), Meaning(g, im');
    assert st'.fat == st.fat;
    assert st'.data == st.data[c := s];
  }

  /** The two tables lie behind the reserved sectors, and the data area behind them. */
  lemma WhereTablesLie(reservedSectors: nat, sectorsPerFat: nat)
    ensures var g := GeometryOf(reservedSectors, sectorsPerFat);
      && g.fatOffset == reservedSectors && g.sectorsPerFat == sectorsPerFat
      && g.dataOffset == reservedSectors + 2 * sectorsPerFat
  {
  }

  /** The bytes of cluster c on disk; and, with a clean cache, those of its link, lowest first, in both tables. */
  lemma BytesOnDisk(g: Geometry, im: Image, c: nat)
    requires Sound(g, im, true) && !Dirty(im) && 2 <= c < 128 * g.sectorsPerFat
    ensures Meaning(g, im).data[c] == im.disk[g.dataOffset + c - 2]
    ensures var s, i := im.disk[g.fatOffset + c / 128], 4 * (c % 128);
      && s == im.disk[g.fatOffset + g.sectorsPerFat + c / 128]
      && Meaning(g, im).fat[c]
        == s[i] as int + 0x100 * s[i + 1] as int + 0x1_0000 * s[i + 2] as int + 0x100_0000 * s[i + 3] as int
  {
    CleanMeansOnDisk(g, im, c);
    assert Agree(g, im.disk, c / 128);
  }

  /** Once the cache is clean, both copies on disk spell the whole table. */
  lemma CleanMeansOnDisk(g: Geometry, im: Image, c: nat)
    requires Sound(g, im, true) && !Dirty(im) && c < 128 * g.sectorsPerFat
    ensures Words(im.disk[g.fatOffset + c / 128])[c % 128] == Meaning(g, im).fat[c]
    ensures Words(im.disk[g.fatOffset + g.sectorsPerFat + c / 128])[c % 128] == Meaning(g, im).fat[c]
  {
    assert Agree(g, im.disk, c / 128);
  }
}
