/** Floppy geometry and the track-bounded DMA read of drivers/floppy. */
module Floppy {
  import opened Bytes

  datatype Kind = NoDrive | F360K | F1200K | F720K | F1440K | F2880K

  datatype Geometry = Geometry(cylinders: u16, heads: u16, sectorsPerTrack: u16)

  /** Cylinder, head and sector, the last counted from 1. */
  datatype Chs = Chs(cylinder: u16, head: u16, sector: u16)

  /** The geometry set_floppy_params gives a drive. */
  function GeometryOf(k: Kind): Geometry {
    match k
    case NoDrive => Geometry(0, 0, 0)
    case F360K => Geometry(40, 2, 9)
    case F1200K => Geometry(80, 2, 15)
    case F720K => Geometry(80, 2, 9)
    case F1440K => Geometry(80, 2, 18)
    case F2880K => Geometry(80, 2, 36)
  }

  function Capacity(g: Geometry): nat {
    2 * g.cylinders * g.sectorsPerTrack
  }

  lemma TwoHeads(lba: nat, n: nat)
    requires 0 < n
    ensures lba % (2 * n) / n < 2 && lba % (2 * n) % n < n
  {
    var inCylinder := lba % (2 * n);
    assert inCylinder == n * (inCylinder / n) + inCylinder % n;
    Multiples(n, 2, inCylinder / n);
  }

  /** lba_2_chs, its results cut to the 16 bits of their fields. */
  function LbaToChs(lba: u32, sectorsPerTrack: u16): Chs {
    if sectorsPerTrack == 0 then Chs(0, 0, 0) else
      var inCylinder := lba % (2 * sectorsPerTrack);
      TwoHeads(lba, sectorsPerTrack);
      Chs(lba / (2 * sectorsPerTrack) % 0x1_0000, inCylinder / sectorsPerTrack, inCylinder % sectorsPerTrack + 1)
  }

  function ChsToLba(c: Chs, sectorsPerTrack: u16): int {
    (2 * c.cylinder + c.head) * sectorsPerTrack + c.sector - 1
  }

  predicate OnTrack(c: Chs, sectorsPerTrack: u16) {
    c.head < 2 && 1 <= c.sector <= sectorsPerTrack
  }

  lemma Multiples(n: nat, a: nat, b: nat)
    ensures a < b ==> n * a + n <= n * b
  {
    if a < b {
      assert n * b == n * (a + 1) + n * (b - a - 1);
    }
  }

  lemma QuotientIsUnique(x: nat, n: nat, q: nat, r: nat)
    requires r < n && x == n * q + r
    ensures x / n == q && x % n == r
  {
    Multiples(n, x / n, q);
    Multiples(n, q, x / n);
  }

  lemma Linear(cylinder: nat, head: nat, sector: nat, n: nat)
    ensures (2 * cylinder + head) * n + sector == 2 * n * cylinder + (n * head + sector)
  {
  }

  /** The address survives the split exactly when the cylinder fits its 16 bits. */
  lemma LbaRoundTrip(lba: u32, sectorsPerTrack: u16)
    requires 0 < sectorsPerTrack
    ensures OnTrack(LbaToChs(lba, sectorsPerTrack), sectorsPerTrack)
    ensures ChsToLba(LbaToChs(lba, sectorsPerTrack), sectorsPerTrack) == lba <==> lba / (2 * sectorsPerTrack) < 0x1_0000
    ensures lba / (2 * sectorsPerTrack) < 0x1_0000 ==> var c := LbaToChs(lba, sectorsPerTrack);
      (2 * c.cylinder + c.head) * sectorsPerTrack + c.sector - 1 == lba
  {
    var cylinder, kept, inCylinder := Halves(lba, sectorsPerTrack);
    Linear(kept, inCylinder / sectorsPerTrack, inCylinder % sectorsPerTrack, sectorsPerTrack);
    Multiples(2 * sectorsPerTrack, kept, cylinder);
  }

  lemma Halves(lba: nat, n: nat) returns (cylinder: nat, kept: nat, inCylinder: nat)
    requires 0 < n
    ensures cylinder == lba / (2 * n) && kept == cylinder % 0x1_0000 && inCylinder == lba % (2 * n)
    ensures lba == 2 * n * cylinder + inCylinder && kept <= cylinder
    ensures inCylinder == n * (inCylinder / n) + inCylinder % n && inCylinder / n < 2
  {
    cylinder, inCylinder := lba / (2 * n), lba % (2 * n);
    kept := cylinder % 0x1_0000;
  }

  lemma ChsRoundTrip(c: Chs, sectorsPerTrack: u16)
    requires OnTrack(c, sectorsPerTrack) && 0 <= ChsToLba(c, sectorsPerTrack) < 0x1_0000_0000
    ensures LbaToChs(ChsToLba(c, sectorsPerTrack), sectorsPerTrack) == c
  {
    var n, lba := 2 * sectorsPerTrack, ChsToLba(c, sectorsPerTrack);
    var inCylinder := sectorsPerTrack * c.head + c.sector - 1;
    assert inCylinder < n;
    assert lba == n * c.cylinder + inCylinder;
    QuotientIsUnique(lba, n, c.cylinder, inCylinder);
    QuotientIsUnique(inCylinder, sectorsPerTrack, c.head, c.sector - 1);
  }

  /** What each kind of drive is, in sectors and cylinders. */
  lemma DriveSizes()
    ensures forall k :: k != NoDrive ==> GeometryOf(k).heads == 2
    ensures GeometryOf(F360K) == Geometry(40, 2, 9) && Capacity(GeometryOf(F360K)) == 720
    ensures GeometryOf(F1200K) == Geometry(80, 2, 15) && Capacity(GeometryOf(F1200K)) == 2400
    ensures GeometryOf(F720K) == Geometry(80, 2, 9) && Capacity(GeometryOf(F720K)) == 1440
    ensures GeometryOf(F1440K) == Geometry(80, 2, 18) && Capacity(GeometryOf(F1440K)) == 2880
    ensures GeometryOf(F2880K) == Geometry(80, 2, 36) && Capacity(GeometryOf(F2880K)) == 5760
    ensures Capacity(GeometryOf(NoDrive)) == 0
  {
  }

  /** Track t begins and ends under head t % 2 of cylinder t / 2, with sectors 1 and n. */
  lemma EndsOfTrack(t: nat, n: u16)
    requires 0 < n && t < 0x2_0000 && t * n + n - 1 < 0x1_0000_0000
    ensures LbaToChs(t * n, n) == Chs(t / 2, t % 2, 1)
    ensures LbaToChs(t * n + n - 1, n) == Chs(t / 2, t % 2, n)
  {
    Linear(t / 2, t % 2, 0, n);
    Linear(t / 2, t % 2, n - 1, n);
    assert t == 2 * (t / 2) + t % 2;
    ChsRoundTrip(Chs(t / 2, t % 2, 1), n);
    ChsRoundTrip(Chs(t / 2, t % 2, n), n);
  }

  /**
   * On a 1.44 MB disk: the sixteenth sector of the first track, both ends of its first three tracks, and the last
   * sector.
   */
  lemma AddressesOnA1440KDisk()
    ensures var n := GeometryOf(F1440K).sectorsPerTrack;
      && LbaToChs(0, n) == Chs(0, 0, 1) && LbaToChs(15, n) == Chs(0, 0, 16) && LbaToChs(17, n) == Chs(0, 0, 18)
      && LbaToChs(18, n) == Chs(0, 1, 1) && LbaToChs(35, n) == Chs(0, 1, 18)
      && LbaToChs(36, n) == Chs(1, 0, 1) && LbaToChs(53, n) == Chs(1, 0, 18)
      && LbaToChs(2879, n) == Chs(79, 1, 18)
  {
  }

  /** Inside the drive every address names a sector of one of its cylinders. */
  lemma InsideTheDrive(lba: u32, g: Geometry)
    requires lba < Capacity(g)
    ensures 0 < g.sectorsPerTrack && lba / (2 * g.sectorsPerTrack) < g.cylinders
    ensures ChsToLba(LbaToChs(lba, g.sectorsPerTrack), g.sectorsPerTrack) == lba
  {
    var n := g.sectorsPerTrack;
    assert 0 < n;
    var cylinder, _, inCylinder := Halves(lba, n);
    Multiples(2 * n, g.cylinders, cylinder);
    assert 2 * g.cylinders * n == 2 * n * g.cylinders;
    LbaRoundTrip(lba, n);
  }

  /** The sectors after one on its track are the ones addressed next. */
  lemma AlongTheTrack(lba: u32, i: nat, n: u16)
    requires 0 < n && ChsToLba(LbaToChs(lba, n), n) == lba
    requires LbaToChs(lba, n).sector + i <= n && lba + i < 0x1_0000_0000
    ensures LbaToChs(lba + i, n) == LbaToChs(lba, n).(sector := LbaToChs(lba, n).sector + i)
  {
    LbaRoundTrip(lba, n);
    ChsRoundTrip(LbaToChs(lba, n).(sector := LbaToChs(lba, n).sector + i), n);
  }

  /** How many sectors one call of floppy_do_track moves, by its own 32-bit arithmetic. */
  function SegmentOf(size: u32, sector: u16, sectorsPerTrack: u16): int {
    var sectors := size / 512 + if size % 512 != 0 then 1 else 0;
    var last := sectors + sector - 1;
    (if last > sectorsPerTrack then sectorsPerTrack else last) - sector + 1
  }

  /** At least one sector, no more than asked for, and none beyond the end of the track. */
  lemma SegmentStaysOnTrack(size: u32, sector: u16, sectorsPerTrack: u16)
    requires 1 <= sector <= sectorsPerTrack && 0 < size
    ensures var n := SegmentOf(size, sector, sectorsPerTrack);
      1 <= n && 512 * (n - 1) < size && sector + n - 1 <= sectorsPerTrack
      && (512 * n >= size || sector + n - 1 == sectorsPerTrack)
  {
  }

  ghost predicate Formatted(medium: map<Chs, Sector>, g: Geometry) {
    forall c: Chs :: OnTrack(c, g.sectorsPerTrack) && c.cylinder < g.cylinders ==> c in medium
  }

  lemma EverySectorIsThere(medium: map<Chs, Sector>, g: Geometry, lba: u32)
    requires Formatted(medium, g) && lba < Capacity(g)
    ensures LbaToChs(lba, g.sectorsPerTrack) in medium
  {
    InsideTheDrive(lba, g);
    LbaRoundTrip(lba, g.sectorsPerTrack);
    CylinderKept(lba, g);
  }

  /** Sector lba of the medium. */
  ghost function SectorAt(medium: map<Chs, Sector>, g: Geometry, lba: u32): Sector
    requires Formatted(medium, g) && lba < Capacity(g)
  {
    EverySectorIsThere(medium, g, lba);
    medium[LbaToChs(lba, g.sectorsPerTrack)]
  }

  /** The bytes `b` begins with are sectors lba, lba + 1, ... of the medium, n of them. */
  ghost predicate HoldsSectors(b: seq<byte>, medium: map<Chs, Sector>, g: Geometry, lba: nat, n: nat)
    requires Formatted(medium, g) && lba + n <= Capacity(g) && Capacity(g) < 0x1_0000_0000
  {
    512 * n <= |b| && forall i :: 0 <= i < n ==> b[512 * i..512 * i + 512] == SectorAt(medium, g, lba + i)
  }

  lemma NoSectors(b: seq<byte>, medium: map<Chs, Sector>, g: Geometry, lba: nat)
    requires Formatted(medium, g) && lba <= Capacity(g) && Capacity(g) < 0x1_0000_0000
    ensures HoldsSectors(b, medium, g, lba, 0)
  {
  }

  lemma MoreSectors(b: seq<byte>, d: seq<byte>, medium: map<Chs, Sector>, g: Geometry, lba: nat, n: nat, more: nat)
    requires Formatted(medium, g) && lba + n + more <= Capacity(g) && Capacity(g) < 0x1_0000_0000
    requires 512 * (n + more) <= |b| && HoldsSectors(b, medium, g, lba, n) && HoldsSectors(d, medium, g, lba + n, more)
    ensures HoldsSectors(Splice(b, 512 * n, d[..512 * more]), medium, g, lba, n + more)
  {
    hide Capacity, SectorAt;
    var w := Splice(b, 512 * n, d[..512 * more]);
    forall i | 0 <= i < n + more ensures w[512 * i..512 * i + 512] == SectorAt(medium, g, lba + i) {
      if i < n {
        assert w[512 * i..512 * i + 512] == b[512 * i..512 * i + 512];
      } else {
        var k := i - n;
        assert w[512 * i..512 * i + 512] == d[512 * k..512 * k + 512];
        assert lba + n + k == lba + i;
      }
    }
  }

  /** What lies on a track from address lba on is what is addressed from there on. */
  lemma TrackHoldsSectors(b: seq<byte>, medium: map<Chs, Sector>, g: Geometry, lba: u32, n: nat)
    requires Formatted(medium, g) && lba + n <= Capacity(g) && Capacity(g) < 0x1_0000_0000 && lba < Capacity(g)
    requires var c := LbaToChs(lba, g.sectorsPerTrack);
      && c.sector + n - 1 <= g.sectorsPerTrack && 512 * n <= |b| && n <= g.sectorsPerTrack
      && forall i :: 0 <= i < n ==>
        c.(sector := c.sector + i) in medium && b[512 * i..512 * i + 512] == medium[c.(sector := c.sector + i)]
    ensures HoldsSectors(b, medium, g, lba, n)
  {
    InsideTheDrive(lba, g);
    hide Capacity, LbaToChs, ChsToLba;
    forall i | 0 <= i < n ensures b[512 * i..512 * i + 512] == SectorAt(medium, g, lba + i) {
      AlongTheTrack(lba, i, g.sectorsPerTrack);
    }
  }

  /** Where a transfer of `size` bytes from address lba starts, and how far it goes. */
  lemma TrackOf(lba: u32, size: u32, g: Geometry)
    requires lba < Capacity(g) && 0 < size
    ensures var c := LbaToChs(lba, g.sectorsPerTrack);
      var n := SegmentOf(size, c.sector, g.sectorsPerTrack);
      && OnTrack(c, g.sectorsPerTrack) && c.cylinder < g.cylinders && 0 < n && 512 * (n - 1) < size
      && c.sector + n - 1 <= g.sectorsPerTrack && lba + n <= Capacity(g)
  {
    InsideTheDrive(lba, g);
    LbaRoundTrip(lba, g.sectorsPerTrack);
    var c := LbaToChs(lba, g.sectorsPerTrack);
    CylinderKept(lba, g);
    SegmentStaysOnTrack(size, c.sector, g.sectorsPerTrack);
    hide Capacity, LbaToChs, ChsToLba, SegmentOf;
    TrackInsideTheDrive(lba, SegmentOf(size, c.sector, g.sectorsPerTrack), g);
  }

  lemma CylinderKept(lba: u32, g: Geometry)
    requires 0 < g.sectorsPerTrack && lba / (2 * g.sectorsPerTrack) < g.cylinders
    ensures LbaToChs(lba, g.sectorsPerTrack).cylinder < g.cylinders
  {
    var _, kept, _ := Halves(lba, g.sectorsPerTrack);
    assert LbaToChs(lba, g.sectorsPerTrack).cylinder == kept;
  }

  lemma EveryDriveIsSmall(k: Kind)
    ensures Capacity(GeometryOf(k)) <= 5760
    ensures k != NoDrive ==> 0 < GeometryOf(k).sectorsPerTrack <= 36
  {
  }

  class Drive {
    const kind: Kind
    const medium: map<Chs, Sector>
    /** The buffer the controller transfers into. */
    const dma: array<byte>
    /** A drive that is not reliable may fail any transfer. */
    const reliable: bool

    constructor (k: Kind, contents: map<Chs, Sector>, reliable: bool)
      requires Formatted(contents, GeometryOf(k))
      ensures Ready() && kind == k && medium == contents && this.reliable == reliable
    {
      kind := k;
      this.reliable := reliable;
      medium := contents;
      dma := new byte[0x8000](_ => 0);
    }

    ghost predicate Ready() {
      dma.Length == 0x8000 && Formatted(medium, GeometryOf(kind))
    }

    /** The transfer itself: seeking, the motor and the twenty tries are the controller's, and may fail. */
    method Transfer(c: Chs, n: nat) returns (ok: bool)
      requires Ready() && 512 * n <= dma.Length
      requires OnTrack(c, GeometryOf(kind).sectorsPerTrack) && c.cylinder < GeometryOf(kind).cylinders
      requires c.sector + n - 1 <= GeometryOf(kind).sectorsPerTrack
      modifies dma
      ensures reliable ==> ok
      ensures ok ==> forall i :: 0 <= i < n ==> dma[512 * i..512 * i + 512] == medium[c.(sector := c.sector + i)]
    {
      ok := *;
      ok := ok || reliable;
      if ok {
        for i := 0 to n
          invariant forall k :: 0 <= k < i ==> dma[512 * k..512 * k + 512] == medium[c.(sector := c.sector + k)]
        {
          var s := medium[c.(sector := c.sector + i)];
          ghost var was := dma[..];
          forall p | 0 <= p < 512 {
            dma[512 * i + p] := s[p];
          }
          assert forall k :: 0 <= k < i ==> dma[512 * k..512 * k + 512] == was[512 * k..512 * k + 512];
        }
      }
    }

    /** floppy_do_track: as much of `size` as the track still holds. */
    method DoTrack(c: Chs, size: u32, ghost lba: u32) returns (error: bool, segment: nat)
      requires Ready() && size <= 4096
      requires kind != NoDrive ==>
        0 < size && lba < Capacity(GeometryOf(kind)) && c == LbaToChs(lba, GeometryOf(kind).sectorsPerTrack)
      modifies dma
      ensures kind == NoDrive ==> error
      ensures kind != NoDrive && reliable ==> !error
      ensures !error ==>
        segment == SegmentOf(size, c.sector, GeometryOf(kind).sectorsPerTrack) && 0 < segment
        && 512 * (segment - 1) < size && lba + segment <= Capacity(GeometryOf(kind))
        && HoldsSectors(dma[..], medium, GeometryOf(kind), lba, segment)
    {
      if kind == NoDrive {
        return true, 0;
      }
      ghost var g := GeometryOf(kind);
      TrackOf(lba, size, g);
      hide Capacity, LbaToChs, SegmentOf, GeometryOf;
      EveryDriveIsSmall(kind);
      segment := SegmentOf(size, c.sector, GeometryOf(kind).sectorsPerTrack);
      var ok := Transfer(c, segment);
      error := !ok;
      if ok {
        TrackHoldsSectors(dma[..], medium, g, lba, segment);
      }
    }

    /** read_floppy_dma: on success the buffer holds exactly the sectors asked for, in order. */
    method ReadFloppyDma(buffer: array<byte>, sectors: u32, lba: u32) returns (error: bool)
      requires Ready() && buffer != dma && 512 * sectors <= buffer.Length
      requires kind != NoDrive ==> lba + sectors <= Capacity(GeometryOf(kind))
      modifies dma, buffer
      ensures kind == NoDrive ==> error == (sectors > 0)
      ensures kind != NoDrive && reliable ==> !error
      ensures !error && kind != NoDrive ==> HoldsSectors(buffer[..], medium, GeometryOf(kind), lba, sectors)
      ensures buffer[512 * sectors..] == old(buffer[512 * sectors..])
    {
      hide Capacity, LbaToChs, SegmentOf, GeometryOf, Formatted, HoldsSectors;
      EveryDriveIsSmall(kind);
      ghost var g := GeometryOf(kind);
      var total := 0;
      if kind != NoDrive {
        NoSectors(buffer[..], medium, g, lba);
      }
      while total < sectors
        invariant total <= sectors && (kind == NoDrive ==> total == 0)
        invariant kind != NoDrive ==> HoldsSectors(buffer[..], medium, GeometryOf(kind), lba, total)
        invariant buffer[512 * sectors..] == old(buffer[512 * sectors..])
        decreases sectors - total
      {
        var c := LbaToChs((lba + total) % 0x1_0000_0000, GeometryOf(kind).sectorsPerTrack);
        var asked := 512 * (sectors - total) % 0x1_0000_0000;
        var size := if asked < 4096 then asked else 4096;
        var failed, segment := DoTrack(c, size, (lba + total) % 0x1_0000_0000);
        if failed {
          return true;
        }
        MoreSectors(buffer[..], dma[..], medium, g, lba, total, segment);
        CopyOut(buffer, 512 * total, 512 * segment);
        total := total + segment;
      }
      return false;
    }

    method CopyOut(buffer: array<byte>, at: nat, n: nat)
      requires n <= dma.Length && at + n <= buffer.Length && buffer != dma
      modifies buffer
      ensures buffer[..] == Splice(old(buffer[..]), at, dma[..n])
    {
      for i := 0 to n
        invariant buffer[..] == Splice(old(buffer[..]), at, dma[..i])
      {
        buffer[at + i] := dma[i];
      }
    }
  }

  lemma TrackInsideTheDrive(lba: u32, n: nat, g: Geometry)
    requires lba < Capacity(g) && 0 < n && LbaToChs(lba, g.sectorsPerTrack).sector + n - 1 <= g.sectorsPerTrack
    ensures lba + n <= Capacity(g)
  {
    InsideTheDrive(lba, g);
    var c := LbaToChs(lba, g.sectorsPerTrack);
    LbaRoundTrip(lba, g.sectorsPerTrack);
    CylinderKept(lba, g);
    hide LbaToChs;
    Multiples(g.sectorsPerTrack, 2 * c.cylinder + c.head, 2 * g.cylinders);
    assert 2 * g.cylinders * g.sectorsPerTrack == g.sectorsPerTrack * (2 * g.cylinders);
  }
}
