/** The disk as the file system sees it: whole sectors, read and written one at a time. */
module SectorDisk {
  import opened Bytes

  const SECTOR_SIZE := 128
  const SECTORS_PER_TRACK := 32
  const NUM_TRACKS := 32
  const NUM_SECTORS := SECTORS_PER_TRACK * NUM_TRACKS

  type Sector = s: seq<byte> | |s| == SECTOR_SIZE witness seq(SECTOR_SIZE, _ => 0)
  const ZERO_SECTOR: Sector := seq(SECTOR_SIZE, _ => 0)

  type Image = d: seq<Sector> | |d| == NUM_SECTORS witness seq(NUM_SECTORS, _ => ZERO_SECTOR)

  /** The two images hold the same data outside the given sectors. */
  ghost predicate SameExcept(d: Image, d': Image, changed: set<int>) {
    forall s :: 0 <= s < NUM_SECTORS && s !in changed ==> d'[s] == d[s]
  }

  class SynchDisk {
    var image: Image

    constructor (contents: Image)
      ensures image == contents
    {
      image := contents;
    }

    /** Copies one sector into `data`, starting at index `at`. */
    method ReadSector(sectorNumber: int, data: array<byte>, at: nat)
      requires 0 <= sectorNumber < NUM_SECTORS
      requires at + SECTOR_SIZE <= data.Length
      modifies data
      ensures data[..] == Splice(old(data[..]), at, image[sectorNumber])
    {
      forall k | 0 <= k < SECTOR_SIZE {
        data[at + k] := image[sectorNumber][k];
      }
    }

    method WriteSector(sectorNumber: int, data: array<byte>, at: nat)
      requires 0 <= sectorNumber < NUM_SECTORS
      requires at + SECTOR_SIZE <= data.Length
      modifies this
      ensures image == old(image)[sectorNumber := data[at..at + SECTOR_SIZE]]
    {
      image := image[sectorNumber := data[at..at + SECTOR_SIZE]];
    }
  }
}
