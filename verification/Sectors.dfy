/** Sectors and the disk under the page cache, the batch scheduler and the file system. */
module Sectors {
  import opened Wrappers
  import opened Bytes

  type Sector = s: seq<u16> | |s| == 256 witness seq(256, _ => 0)

  /** The sectors the backend can read. */
  type Disk = map<u32, Sector>

  function Stored(disk: Disk, lba: u32): Option<Sector>
  {
    if lba in disk then Some(disk[lba]) else None
  }
}
