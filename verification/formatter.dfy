/** The FAT16 geometry arithmetic of the super-floppy formatter: the
    cluster size chosen from the disk size, the root directory size and the
    sectors per FAT (the DskTableFAT16 and FATSz computations of the "FAT
    Volume Initialization" section of Microsoft's FAT specification).  The
    repository carries two copies of the formatter; they differ only in
    the integer type the FAT size passes through on its way out. */
module Formatter {
  import opened Bytes
  import opened Wrappers
  import Bits

  const MAX_DIRECTORY: int := 512
  const DEFAULT_FAT_COUNT: int := 2
  const MIN_FAT16_SECTORS: int := 8400
  const MAX_FAT16_SECTORS: int := 4194304

  /** The cluster size, in sectors, for a disk of `sectors` sectors. */
  function ClusterTable(sectors: int): int
  {
    if sectors > 2097152 then 64
    else if sectors > 1048576 then 32
    else if sectors > 524288 then 16
    else if sectors > 262144 then 8
    else if sectors > 32680 then 4
    else 2
  }

  /** Every size in the table is a power of two between 2 and 64, and a
      larger disk never gets smaller clusters. */
  lemma ClusterTableShape(a: int, b: int)
    ensures Bits.Pow2(ClusterTable(a)) && 2 <= ClusterTable(a) <= 64
    ensures a <= b ==> ClusterTable(a) <= ClusterTable(b)
  {
    assert Bits.Pow2(1);
    assert Bits.Pow2(2);
    assert Bits.Pow2(4);
    assert Bits.Pow2(8);
    assert Bits.Pow2(16);
    assert Bits.Pow2(32);
    assert Bits.Pow2(64);
  }

  /** `sectorsPerCluster16()`: requires one reserved sector and two FATs,
      and a disk of more than 8400 and at most 4194304 sectors; the same
      text appears in both copies of the formatter. */
  function SectorsPerCluster16(reservedSectors: int, fatCount: int, deviceSize: int, sectorSize: int): (r: Result<int>)
    requires deviceSize >= 0 && sectorSize > 0
    ensures r.Ok? <==> && reservedSectors == 1 && fatCount == DEFAULT_FAT_COUNT
                       && MIN_FAT16_SECTORS < deviceSize / sectorSize <= MAX_FAT16_SECTORS
    ensures r.Err? ==> r.fault == FormatterArgument
    ensures r.Ok? ==> r.value == ClusterTable(deviceSize / sectorSize)
  {
    var sectors := deviceSize / sectorSize;
    if reservedSectors != 1 then Err(FormatterArgument)
    else if fatCount != 2 then Err(FormatterArgument)
    else if sectors <= 8400 then Err(FormatterArgument)
    else if sectors > 4194304 then Err(FormatterArgument)
    else Ok(ClusterTable(sectors))
  }

  /** The product `bps * nbTotalSectors` is computed in a 32-bit `int`;
      outside its range the multiplication is undefined. */
  predicate FitsInt(v: int)
  {
    -0x8000_0000 <= v <= INT_MAX
  }

  /** `rootDirectorySize(bps, nbTotalSectors)`: 512 entries for a disk of
      at least 81920 bytes, otherwise one entry per 160 bytes. */
  function RootDirectorySize(bps: int, nbTotalSectors: int): (r: int)
    requires FitsInt(bps * nbTotalSectors)
  {
    var totalSize := bps * nbTotalSectors;
    if totalSize >= MAX_DIRECTORY * 5 * 32 then MAX_DIRECTORY else CDiv(totalSize, 5 * 32)
  }

  /** On a disk of non-negative size the root directory holds at most 512
      entries, and its 32-byte entries take at most a fifth of the disk. */
  lemma RootDirectoryFits(bps: int, nbTotalSectors: int)
    requires FitsInt(bps * nbTotalSectors) && bps * nbTotalSectors >= 0
    ensures var r := RootDirectorySize(bps, nbTotalSectors);
            0 <= r <= MAX_DIRECTORY && r * 32 * 5 <= bps * nbTotalSectors
  {
    var totalSize := bps * nbTotalSectors;
    if totalSize < MAX_DIRECTORY * 5 * 32 {
      DivBelow(totalSize, 160);
    }
  }

  /** The intermediate values of `sectorsPerFat`, named as in the source. */
  function RootDirSectors(rootDirEntries: int, bps: int): int
    requires bps > 0
  {
    CDiv(rootDirEntries * 32 + (bps - 1), bps)
  }

  /** The `int` arithmetic of `sectorsPerFat` stays in range. */
  predicate SectorsPerFatDefined(rootDirEntries: int, totalSectors: int, bps: int,
                                 reservedSectors: int, sectorsPerCluster: int, fatCount: int)
  {
    && bps > 0
    && FitsInt(rootDirEntries * 32) && FitsInt(rootDirEntries * 32 + (bps - 1))
    && FitsInt(reservedSectors + RootDirSectors(rootDirEntries, bps))
    && FitsInt(256 * sectorsPerCluster) && FitsInt(256 * sectorsPerCluster + fatCount)
    && 256 * sectorsPerCluster + fatCount != 0
  }

  /** The quotient of `sectorsPerFat` before it is narrowed. */
  function FatQuotient(rootDirEntries: int, totalSectors: int, bps: int,
                       reservedSectors: int, sectorsPerCluster: int, fatCount: int): int
    requires SectorsPerFatDefined(rootDirEntries, totalSectors, bps, reservedSectors, sectorsPerCluster, fatCount)
  {
    var tmp1 := totalSectors - (reservedSectors + RootDirSectors(rootDirEntries, bps));
    var tmp2 := 256 * sectorsPerCluster + fatCount;
    CDiv(tmp1 + (tmp2 - 1), tmp2)
  }

  /** `sectorsPerFat` of src/main/SuperFloppyFormatter.hpp: the quotient is
      narrowed to `int`. */
  function SectorsPerFat(rootDirEntries: int, totalSectors: int, bps: int,
                         reservedSectors: int, sectorsPerCluster: int, fatCount: int): (r: int)
    requires SectorsPerFatDefined(rootDirEntries, totalSectors, bps, reservedSectors, sectorsPerCluster, fatCount)
    ensures FitsInt(r)
  {
    Int32(FatQuotient(rootDirEntries, totalSectors, bps, reservedSectors, sectorsPerCluster, fatCount))
  }

  /** `sectorsPerFat` of src/main/util/SuperFloppyFormatter.hpp: the
      quotient is cast to `uint32_t` and returned as `int32_t`. */
  function SectorsPerFatUtil(rootDirEntries: int, totalSectors: int, bps: int,
                             reservedSectors: int, sectorsPerCluster: int, fatCount: int): (r: int)
    requires SectorsPerFatDefined(rootDirEntries, totalSectors, bps, reservedSectors, sectorsPerCluster, fatCount)
    ensures FitsInt(r)
  {
    var unsigned := FatQuotient(rootDirEntries, totalSectors, bps, reservedSectors, sectorsPerCluster, fatCount) % UINT32_LIMIT;
    Int32(unsigned)
  }

  /** Two 32-bit values that agree modulo 2^32 are equal. */
  lemma SameInt32(a: int, b: int)
    requires FitsInt(a) && FitsInt(b) && (a - b) % UINT32_LIMIT == 0
    ensures a == b
  {
    DivModOf(a - b, (a - b) / UINT32_LIMIT, 0, UINT32_LIMIT);
  }

  /** The two copies compute the same FAT size for every input: the detour
      through `uint32_t` keeps the same low 32 bits. */
  lemma SectorsPerFatCopiesAgree(rootDirEntries: int, totalSectors: int, bps: int,
                                 reservedSectors: int, sectorsPerCluster: int, fatCount: int)
    requires SectorsPerFatDefined(rootDirEntries, totalSectors, bps, reservedSectors, sectorsPerCluster, fatCount)
    ensures SectorsPerFat(rootDirEntries, totalSectors, bps, reservedSectors, sectorsPerCluster, fatCount)
            == SectorsPerFatUtil(rootDirEntries, totalSectors, bps, reservedSectors, sectorsPerCluster, fatCount)
  {
    var q := FatQuotient(rootDirEntries, totalSectors, bps, reservedSectors, sectorsPerCluster, fatCount);
    var a, b := Int32(q), Int32(q % UINT32_LIMIT);
    var u := q % UINT32_LIMIT;
    DivModOf(q, q / UINT32_LIMIT, u, UINT32_LIMIT);
    assert (a - b) % UINT32_LIMIT == 0 by {
      var ka, kb := (q - a) / UINT32_LIMIT, (u - b) / UINT32_LIMIT;
      DivModOf(q - a, ka, 0, UINT32_LIMIT);
      DivModOf(u - b, kb, 0, UINT32_LIMIT);
      assert a - b == (q - u) - (q - a) + (u - b);
      DivModOf(a - b, q / UINT32_LIMIT - ka + kb, 0, UINT32_LIMIT);
    }
    SameInt32(a, b);
  }

  /** For a disk with room for data, the FAT size is the smallest count of
      FAT sectors `r` with `r * (256 * sectorsPerCluster + fatCount)`
      covering the sectors outside the reserved area and the root
      directory; the root directory sectors cover its entries. */
  lemma SectorsPerFatCovers(rootDirEntries: int, totalSectors: int, bps: int,
                            reservedSectors: int, sectorsPerCluster: int, fatCount: int)
    requires SectorsPerFatDefined(rootDirEntries, totalSectors, bps, reservedSectors, sectorsPerCluster, fatCount)
    requires rootDirEntries >= 0 && sectorsPerCluster > 0 && fatCount >= 0
    requires totalSectors - (reservedSectors + RootDirSectors(rootDirEntries, bps)) >= 0
    requires FatQuotient(rootDirEntries, totalSectors, bps, reservedSectors, sectorsPerCluster, fatCount) <= INT_MAX
    ensures RootDirSectors(rootDirEntries, bps) * bps >= rootDirEntries * 32
    ensures var r := SectorsPerFat(rootDirEntries, totalSectors, bps, reservedSectors, sectorsPerCluster, fatCount);
            var tmp1 := totalSectors - (reservedSectors + RootDirSectors(rootDirEntries, bps));
            var tmp2 := 256 * sectorsPerCluster + fatCount;
            r * tmp2 >= tmp1 && (r - 1) * tmp2 < tmp1
  {
    CeilDiv(rootDirEntries * 32, bps);
    var tmp1 := totalSectors - (reservedSectors + RootDirSectors(rootDirEntries, bps));
    var tmp2 := 256 * sectorsPerCluster + fatCount;
    CeilDiv(tmp1, tmp2);
  }
}
