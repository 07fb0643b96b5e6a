/** Sector addressing of the test block device: the sector constants, the
    shifts that convert between sectors and bytes, and the capacity and
    backing-store size fixed when the device is set up. */
module Sectors {

  /** log2 of the sector size */
  const SectorShift: nat := 9

  /** bytes per sector */
  const SectorSize: nat := 512

  /** The largest page size any supported architecture configures (256 KiB). */
  const MaxPageSize: nat := 0x4_0000

  /** `x << n` on unsigned integers wide enough not to overflow: n
      doublings. */
  function ShiftLeft(x: nat, n: nat): (r: nat)
    ensures x <= r
    ensures r == 0 <==> x == 0
  {
    if n == 0 then x else 2 * ShiftLeft(x, n - 1)
  }

  /** `x >> n` on unsigned integers: n halvings, each dropping the low bit. */
  function ShiftRight(x: nat, n: nat): (r: nat)
    ensures r <= x
  {
    if n == 0 then x else ShiftRight(x, n - 1) / 2
  }

  /** Shifting a sector number left by the sector shift multiplies it by
      the sector size. */
  lemma ShiftLeftSectors(x: nat)
    ensures ShiftLeft(x, SectorShift) == x * SectorSize
  {
    assert ShiftLeft(x, 9) == 2 * ShiftLeft(x, 8) == 4 * ShiftLeft(x, 7) == 8 * ShiftLeft(x, 6)
        == 16 * ShiftLeft(x, 5) == 32 * ShiftLeft(x, 4) == 64 * ShiftLeft(x, 3)
        == 128 * ShiftLeft(x, 2) == 256 * ShiftLeft(x, 1) == 512 * ShiftLeft(x, 0);
  }

  /** Shifting a byte count right by the sector shift divides it by the
      sector size, dropping the remainder. */
  lemma ShiftRightSectors(x: nat)
    ensures ShiftRight(x, SectorShift) == x / SectorSize
  {
    assert ShiftRight(x, 1) == x / 2;
    assert ShiftRight(x, 2) == x / 4;
    assert ShiftRight(x, 3) == x / 8;
    assert ShiftRight(x, 4) == x / 16;
    assert ShiftRight(x, 5) == x / 32;
    assert ShiftRight(x, 6) == x / 64;
    assert ShiftRight(x, 7) == x / 128;
    assert ShiftRight(x, 8) == x / 256;
  }

  /** A page size the kernel can be configured with: positive and no
      larger than MaxPageSize. */
  predicate IsPageSize(pageSize: nat)
  {
    0 < pageSize <= MaxPageSize
  }

  /** Device capacity in sectors: `(SECTOR_SIZE * PAGE_SIZE) >> SECTOR_SHIFT`,
      which is PAGE_SIZE sectors. */
  function Capacity(pageSize: nat): (c: nat)
    ensures c == pageSize
  {
    ShiftRightSectors(SectorSize * pageSize);
    ShiftRight(SectorSize * pageSize, SectorShift)
  }

  /** Backing-store length in bytes for a capacity: `capacity << SECTOR_SHIFT`,
      i.e. capacity times the sector size. */
  function StoreSize(capacity: nat): (n: nat)
    ensures n == capacity * SectorSize
    ensures n / SectorSize == capacity
  {
    ShiftLeftSectors(capacity);
    ShiftLeft(capacity, SectorShift)
  }

  /** Byte offset of the first byte of a sector: `sector << SECTOR_SHIFT`. */
  function SectorOffset(sector: nat): (off: nat)
    ensures off == sector * SectorSize
    ensures off % SectorSize == 0
  {
    ShiftLeftSectors(sector);
    ShiftLeft(sector, SectorShift)
  }
}
