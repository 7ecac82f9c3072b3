/** The block device below the file system. Port I/O and polling are abstracted to an array of sectors. */
module BlockDevice {
  import opened Bytes

  /** Error codes of the device layer collapse to success or failure. */
  class Device {
    var disk: seq<Sector>
    /** A device that is not reliable may fail any operation; a failed operation has no effect. */
    const reliable: bool

    constructor (contents: seq<Sector>, reliable: bool)
      ensures disk == contents && this.reliable == reliable
    {
      disk := contents;
      this.reliable := reliable;
    }

    method Read(lba: nat) returns (ok: bool, s: Sector)
      requires lba < |disk|
      ensures ok ==> s == disk[lba]
      ensures reliable ==> ok
    {
      ok, s := *, ZeroSector();
      ok := ok || reliable;
      if ok {
        s := disk[lba];
      }
    }

    /** Writing a sector the device does not have is an error. */
    method Write(s: Sector, lba: nat) returns (ok: bool)
      modifies this
      ensures ok ==> lba < |old(disk)|
      ensures disk == if ok then old(disk)[lba := s] else old(disk)
      ensures reliable && lba < |old(disk)| ==> ok
    {
      if lba >= |disk| {
        return false;
      }
      ok := *;
      ok := ok || reliable;
      if ok {
        disk := disk[lba := s];
      }
    }
  }
}
