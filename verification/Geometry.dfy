/** Sectors, frames and 16-sector blocks. */
module Geometry {
  import opened Bytes

  /** A raw sector, as the drive keeps it in its memory, and its user data. */
  const RAW_SECTOR: nat := 2064
  const SECTOR: nat := 2048
  const SECTORS_PER_BLOCK: nat := 16
  const RAW_BLOCK: nat := 33024
  const USER_BLOCK: nat := 32768

  type RawBlock = s: seq<byte> | |s| == RAW_BLOCK witness seq(RAW_BLOCK, i => 0)

  type UserBlock = s: seq<byte> | |s| == USER_BLOCK witness seq(USER_BLOCK, i => 0)

  /** A block with its unscrambled user data. */
  datatype Entry = Entry(data: UserBlock, raw: RawBlock)

  datatype DiscType = Gamecube | Wii | WiiDualLayer | Dvd

  /** Where the unscrambled data goes in a raw sector. */
  function DataAt(kind: DiscType): (at: nat)
    ensures at + SECTOR <= RAW_SECTOR
  {
    if kind == Dvd then 12 else 6
  }

  /** The raw block with its user data unscrambled. */
  function Patched(kind: DiscType, e: Entry): (r: RawBlock) {
    seq(RAW_BLOCK, p requires 0 <= p < RAW_BLOCK =>
      var sector, offset := p / RAW_SECTOR, p % RAW_SECTOR;
      if DataAt(kind) <= offset < DataAt(kind) + SECTOR then e.data[sector * SECTOR + (offset - DataAt(kind))]
      else e.raw[p])
  }

  /** The user data and the raw bytes of sector k of a block. */
  function UserSector(e: Entry, k: nat): (s: seq<byte>)
    requires k < SECTORS_PER_BLOCK
    ensures |s| == SECTOR
  {
    e.data[k * SECTOR..k * SECTOR + SECTOR]
  }

  function RawSector(e: Entry, k: nat): (s: seq<byte>)
    requires k < SECTORS_PER_BLOCK
    ensures |s| == RAW_SECTOR
  {
    e.raw[k * RAW_SECTOR..k * RAW_SECTOR + RAW_SECTOR]
  }
}
