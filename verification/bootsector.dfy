/** The FAT16 boot sector: a 512-byte sector at device offset 0 holding
    the volume geometry (the "Boot Sector and BPB" layout of Microsoft's
    FAT specification).  The accessors of the generic boot sector and of
    its FAT16 specialisation are modelled together, since the file system
    only ever builds the FAT16 one. */
module BootSector {
  import opened Bytes
  import opened Wrappers
  import opened Bits
  import LittleEndian
  import ByteBuffer
  import Device
  import Sector
  import FatType

  const SIZE: nat := 512
  const FAT_COUNT_OFFSET: nat := 16
  const RESERVED_SECTORS_OFFSET: nat := 14
  const TOTAL_SECTORS_16_OFFSET: nat := 19
  const TOTAL_SECTORS_32_OFFSET: nat := 32
  const SECTORS_PER_CLUSTER_OFFSET: nat := 0x0d
  const BYTES_PER_SECTOR_OFFSET: nat := 0x0b
  const MEDIUM_DESCRIPTOR_OFFSET: nat := 0x15
  const SECTORS_PER_TRACK_OFFSET: nat := 0x18
  const HEADS_OFFSET: nat := 0x1a
  const HIDDEN_SECTORS_OFFSET: nat := 0x1c
  const OEM_NAME_OFFSET: nat := 0x03
  const EXTENDED_BOOT_SIGNATURE: int := 0x29
  const FILE_SYSTEM_TYPE_LENGTH: nat := 8

  const DEFAULT_ROOT_DIR_ENTRY_COUNT: int := 512
  const DEFAULT_VOLUME_LABEL: Str := "NO NAME"
  const MAX_FAT16_CLUSTERS: int := 65524
  const SECTORS_PER_FAT_OFFSET: nat := 0x16
  const ROOT_DIR_ENTRIES_OFFSET: nat := 0x11
  const VOLUME_LABEL_OFFSET: nat := 0x2b
  const FILE_SYSTEM_TYPE_OFFSET: nat := 0x36
  const MAX_VOLUME_LABEL_LENGTH: nat := 11
  const EXTENDED_BOOT_SIGNATURE_OFFSET: nat := 0x26

  type BootSector = s: Sector.Sector | s.Size() == SIZE witness Sector.Create(0, SIZE)

  /** Every byte outside [lo, hi) is the same in both sectors. */
  predicate Unchanged(a: BootSector, b: BootSector, lo: nat, hi: nat)
  {
    forall i :: 0 <= i < SIZE && !(lo <= i < hi) ==> a.Data()[i] == b.Data()[i]
  }

  // ---------------------------------------------------------------- fields

  function BytesPerSector(b: BootSector): (v: int)
    ensures 0 <= v < 0x1_0000
  {
    Sector.Get16(b, BYTES_PER_SECTOR_OFFSET)
  }

  function NrReservedSectors(b: BootSector): (v: int)
    ensures 0 <= v < 0x1_0000
  {
    Sector.Get16(b, RESERVED_SECTORS_OFFSET)
  }

  /** `get8` is signed, so a count byte of 0x80 or more reads negative. */
  function NrFats(b: BootSector): (v: int)
    ensures -128 <= v < 128
  {
    Sector.Get8(b, FAT_COUNT_OFFSET)
  }

  function SectorsPerCluster(b: BootSector): (v: int)
    ensures -128 <= v < 128
  {
    Sector.Get8(b, SECTORS_PER_CLUSTER_OFFSET)
  }

  function MediumDescriptor(b: BootSector): (v: int)
    ensures -128 <= v < 128
  {
    Sector.Get8(b, MEDIUM_DESCRIPTOR_OFFSET)
  }

  function SectorsPerTrack(b: BootSector): (v: int)
    ensures 0 <= v < 0x1_0000
  {
    Sector.Get16(b, SECTORS_PER_TRACK_OFFSET)
  }

  function NrHeads(b: BootSector): (v: int)
    ensures 0 <= v < 0x1_0000
  {
    Sector.Get16(b, HEADS_OFFSET)
  }

  function NrHiddenSectors(b: BootSector): (v: int)
    ensures 0 <= v < UINT32_LIMIT
  {
    Sector.Get32(b, HIDDEN_SECTORS_OFFSET)
  }

  function NrLogicalSectors(b: BootSector): (v: int)
    ensures 0 <= v < 0x1_0000
  {
    Sector.Get16(b, TOTAL_SECTORS_16_OFFSET)
  }

  function NrTotalSectors(b: BootSector): (v: int)
    ensures 0 <= v < UINT32_LIMIT
  {
    Sector.Get32(b, TOTAL_SECTORS_32_OFFSET)
  }

  function SectorsPerFat(b: BootSector): (v: int)
    ensures 0 <= v < 0x1_0000
  {
    Sector.Get16(b, SECTORS_PER_FAT_OFFSET)
  }

  function RootDirEntryCount(b: BootSector): (v: int)
    ensures 0 <= v < 0x1_0000
  {
    Sector.Get16(b, ROOT_DIR_ENTRIES_OFFSET)
  }

  /** `getSectorCount`: the 32-bit field is consulted only when the 16-bit
      one is zero. */
  function SectorCount(b: BootSector): (v: int)
    ensures NrLogicalSectors(b) != 0 ==> v == NrLogicalSectors(b)
    ensures NrLogicalSectors(b) == 0 ==> v == NrTotalSectors(b)
  {
    if NrLogicalSectors(b) == 0 then NrTotalSectors(b) else NrLogicalSectors(b)
  }

  // -------------------------------------------------------------- geometry

  /** Byte offset of FAT copy `n`: the reserved sectors, then `n` whole
      FATs. */
  function FatOffset(b: BootSector, n: int): (off: int)
    ensures off == (NrReservedSectors(b) + n * SectorsPerFat(b)) * BytesPerSector(b)
    ensures n >= 0 ==> off >= NrReservedSectors(b) * BytesPerSector(b) >= 0
  {
    var fatSize := SectorsPerFat(b) * BytesPerSector(b);
    MulNonNegative(NrReservedSectors(b), BytesPerSector(b));
    MulNonNegative(SectorsPerFat(b), BytesPerSector(b));
    MulDistributes(NrReservedSectors(b), n, SectorsPerFat(b), BytesPerSector(b));
    if n >= 0 then MulNonNegative(n, fatSize); NrReservedSectors(b) * BytesPerSector(b) + n * fatSize
    else NrReservedSectors(b) * BytesPerSector(b) + n * fatSize
  }

  /** Consecutive FAT copies are laid out back to back: copy `j` starts
      `j - i` FAT sizes after copy `i`, so no two copies overlap. */
  lemma FatCopiesAdjacent(b: BootSector, i: int, j: int)
    requires 0 <= i <= j
    ensures FatOffset(b, j) - FatOffset(b, i) == (j - i) * (SectorsPerFat(b) * BytesPerSector(b))
    ensures i < j ==> FatOffset(b, i) + SectorsPerFat(b) * BytesPerSector(b) <= FatOffset(b, j)
  {
    var fatSize := SectorsPerFat(b) * BytesPerSector(b);
    Distribute(j, i, fatSize);
    MulNonNegative(SectorsPerFat(b), BytesPerSector(b));
    if i < j {
      AtLeastOnce(j - i, fatSize);
    }
  }

  lemma Distribute(a: int, c: int, f: int)
    ensures a * f - c * f == (a - c) * f
  {
  }

  lemma AtLeastOnce(k: int, f: int)
    requires k >= 1 && f >= 0
    ensures k * f >= f
  {
    assert k * f == (k - 1) * f + f;
  }

  /** The root directory follows the last FAT copy. */
  function RootDirOffset(b: BootSector): (off: int)
    ensures off == FatOffset(b, NrFats(b))
  {
    var fats, spf, bps := NrFats(b), SectorsPerFat(b), BytesPerSector(b);
    assert fats * spf * bps == fats * (spf * bps);
    FatOffset(b, 0) + fats * spf * bps
  }

  /** The data region follows the root directory's 32-byte entries, not
      rounded up to a sector boundary. */
  function FilesOffset(b: BootSector): (off: int)
    ensures off - RootDirOffset(b) == 32 * RootDirEntryCount(b)
  {
    RootDirOffset(b) + RootDirEntryCount(b) * 32
  }

  function BytesPerCluster(b: BootSector): (n: int)
    ensures BytesPerSector(b) > 0 && SectorsPerCluster(b) > 0 ==> n >= BytesPerSector(b)
    ensures BytesPerSector(b) != 0 && SectorsPerCluster(b) != 0 ==> n != 0
  {
    var spc, bps := SectorsPerCluster(b), BytesPerSector(b);
    if spc != 0 && bps != 0 then MulNonZero(spc, bps); spc * bps else spc * bps
  }

  /** `getDataSize`: the bytes of the volume after the data-region start. */
  function DataSize(b: BootSector): (n: int)
    ensures n + FilesOffset(b) == SectorCount(b) * BytesPerSector(b)
  {
    SectorCount(b) * BytesPerSector(b) - FilesOffset(b)
  }

  /** `getDataClusterCount`: how many whole clusters fit in the data region
      (C division, which truncates toward zero). */
  function DataClusterCount(b: BootSector): (n: int)
    requires BytesPerCluster(b) != 0
    ensures DataSize(b) >= 0 && BytesPerCluster(b) > 0 ==>
              n >= 0 && n * BytesPerCluster(b) <= DataSize(b) < (n + 1) * BytesPerCluster(b)
  {
    var size, cluster := DataSize(b), BytesPerCluster(b);
    var n := CDiv(size, cluster);
    if size >= 0 && cluster > 0 then
      WholeUnits(size, cluster);
      n
    else n
  }

  /** `a / b` whole units of `b` fit in `a`, and one more does not. */
  lemma WholeUnits(a: int, b: int)
    requires a >= 0 && b > 0
    ensures a / b >= 0 && (a / b) * b <= a < (a / b + 1) * b
  {
    var q, r := a / b, a % b;
    assert a == q * b + r && 0 <= r < b;
    assert (q + 1) * b == q * b + b;
  }

  /** `getFatType`: the FAT16 cluster count is computed in sectors, with
      the root directory rounded up to whole sectors, and must not exceed
      65524.  The source allocates a new type object on every call. */
  function GetFatType(b: BootSector): (r: Result<FatType.FatKind>)
    requires BytesPerSector(b) != 0 && SectorsPerCluster(b) != 0
    ensures r.Ok? <==> FatClusterCount(b) <= MAX_FAT16_CLUSTERS
    ensures r.Ok? ==> r.value == FatType.Fat16
  {
    if FatClusterCount(b) > MAX_FAT16_CLUSTERS then Err(TooManyClusters) else Ok(FatType.Fat16)
  }

  /** The cluster count `getFatType` checks. */
  function FatClusterCount(b: BootSector): (n: int)
    requires BytesPerSector(b) != 0 && SectorsPerCluster(b) != 0
  {
    var bps := BytesPerSector(b);
    var rootDirSectors := (RootDirEntryCount(b) * 32 + (bps - 1)) / bps;
    var dataSectors := SectorCount(b) - (NrReservedSectors(b) + NrFats(b) * SectorsPerFat(b) + rootDirSectors);
    CDiv(dataSectors, SectorsPerCluster(b))
  }

  // --------------------------------------------------------------- setters

  /** `isPowerOfTwo(n)`: `n != 0 && (n & (n - 1)) == 0` on a 32-bit int
      (INT_MIN is excluded: `n - 1` would overflow). */
  function IsPowerOfTwo(n: int): (r: bool)
    requires -INT_MAX <= n <= INT_MAX
    ensures r <==> n > 0 && Pow2(n)
  {
    PowerOfTwoPattern(n);
    n != 0 && AndNat(n % UINT32_LIMIT, (n - 1) % UINT32_LIMIT) == 0
  }

  /** On 32-bit two's complement patterns, `n & (n - 1)` vanishes for a
      non-zero `n` exactly when `n` is a positive power of two: a negative
      `n` has the pattern `n + 2^32`, which lies strictly between 2^31 and
      2^32. */
  lemma PowerOfTwoPattern(n: int)
    requires -INT_MAX <= n <= INT_MAX
    ensures (n != 0 && AndNat(n % UINT32_LIMIT, (n - 1) % UINT32_LIMIT) == 0) <==> n > 0 && Pow2(n)
  {
    if n > 0 {
      SmallMod(n, UINT32_LIMIT);
      SmallMod(n - 1, UINT32_LIMIT);
      AndPredecessor(n);
    } else if n < 0 {
      var u := n + UINT32_LIMIT;
      WrapNegative(n, UINT32_LIMIT);
      WrapNegative(n - 1, UINT32_LIMIT);
      Pow31();
      AndPredecessor(u);
      Pow2Gap(u, 31);
    }
  }

  /** `setBytesPerSector`: only the four standard sector sizes, unless
      unchanged.  As written, `set16` stores the low byte of the value in
      the high byte of the field, so every accepted new size reads back
      as 0. */
  function SetBytesPerSector(m: Sector.Stores, b: BootSector, v: int): (r: Result<BootSector>)
    ensures r.Ok? <==> v == BytesPerSector(b) || v in {512, 1024, 2048, 4096}
    ensures r.Ok? ==> BytesPerSector(r.value) == if v == BytesPerSector(b) then v else Sector.Stored16(m, v)
    ensures r.Ok? && m.Intended? ==> BytesPerSector(r.value) == v
    ensures r.Ok? && m.AsWritten? && v != BytesPerSector(b) ==> BytesPerSector(r.value) == 0
    ensures r.Ok? ==> Unchanged(r.value, b, BYTES_PER_SECTOR_OFFSET, BYTES_PER_SECTOR_OFFSET + 2)
  {
    if v == BytesPerSector(b) then Ok(b)
    else if v in {512, 1024, 2048, 4096} then Ok(Sector.Put16(m, b, BYTES_PER_SECTOR_OFFSET, v))
    else Err(InvalidGeometry)
  }

  /** `setSectorsPerCluster`: the power-of-two check applies only when the
      value differs from the current (signed) one; the byte store then
      rejects anything above 255. */
  function SetSectorsPerCluster(b: BootSector, v: int): (r: Result<BootSector>)
    requires -INT_MAX <= v <= INT_MAX
    ensures r.Ok? <==> v == SectorsPerCluster(b) || (0 < v < 0x100 && Pow2(v))
    ensures r.Ok? && v == SectorsPerCluster(b) ==> r.value == b
    ensures r.Ok? && v != SectorsPerCluster(b) ==> r.value.Data()[SECTORS_PER_CLUSTER_OFFSET] == v
    ensures r.Ok? ==> Unchanged(r.value, b, SECTORS_PER_CLUSTER_OFFSET, SECTORS_PER_CLUSTER_OFFSET + 1)
  {
    if v == SectorsPerCluster(b) then Ok(b)
    else if !IsPowerOfTwo(v) then Err(InvalidGeometry)
    else Sector.Set8(b, SECTORS_PER_CLUSTER_OFFSET, v)
  }

  /** `setNrReservedSectors`: at least one, unless unchanged. */
  function SetNrReservedSectors(m: Sector.Stores, b: BootSector, v: int): (r: Result<BootSector>)
    ensures r.Ok? <==> v == NrReservedSectors(b) || v >= 1
    ensures r.Ok? ==> NrReservedSectors(r.value) == if v == NrReservedSectors(b) then v else Sector.Stored16(m, v)
    ensures r.Ok? ==> Unchanged(r.value, b, RESERVED_SECTORS_OFFSET, RESERVED_SECTORS_OFFSET + 2)
  {
    if v == NrReservedSectors(b) then Ok(b)
    else if v < 1 then Err(InvalidGeometry)
    else Ok(Sector.Put16(m, b, RESERVED_SECTORS_OFFSET, v))
  }

  function SetNrFats(b: BootSector, v: int): (r: Result<BootSector>)
    ensures r.Ok? <==> v == NrFats(b) || 0 <= v < 0x100
    ensures r.Ok? ==> Unchanged(r.value, b, FAT_COUNT_OFFSET, FAT_COUNT_OFFSET + 1)
    ensures r.Ok? && v != NrFats(b) ==> r.value.Data()[FAT_COUNT_OFFSET] == v
  {
    if v == NrFats(b) then Ok(b) else Sector.Set8(b, FAT_COUNT_OFFSET, v)
  }

  function SetMediumDescriptor(b: BootSector, v: int): (r: Result<BootSector>)
    ensures r.Ok? <==> 0 <= v < 0x100
    ensures r.Ok? ==> r.value.Data()[MEDIUM_DESCRIPTOR_OFFSET] == v
    ensures r.Ok? ==> Unchanged(r.value, b, MEDIUM_DESCRIPTOR_OFFSET, MEDIUM_DESCRIPTOR_OFFSET + 1)
  {
    Sector.Set8(b, MEDIUM_DESCRIPTOR_OFFSET, v)
  }

  function SetSectorsPerTrack(m: Sector.Stores, b: BootSector, v: int): (r: BootSector)
    ensures SectorsPerTrack(r) == if v == SectorsPerTrack(b) then v else Sector.Stored16(m, v)
    ensures Unchanged(r, b, SECTORS_PER_TRACK_OFFSET, SECTORS_PER_TRACK_OFFSET + 2)
  {
    if v == SectorsPerTrack(b) then b else Sector.Put16(m, b, SECTORS_PER_TRACK_OFFSET, v)
  }

  function SetNrHeads(m: Sector.Stores, b: BootSector, v: int): (r: BootSector)
    ensures NrHeads(r) == if v == NrHeads(b) then v else Sector.Stored16(m, v)
    ensures Unchanged(r, b, HEADS_OFFSET, HEADS_OFFSET + 2)
  {
    if v == NrHeads(b) then b else Sector.Put16(m, b, HEADS_OFFSET, v)
  }

  /** `setNrHiddenSectors`: its store is commented out, so the sector,
      including its dirty flag, is never changed. */
  function SetNrHiddenSectors(b: BootSector, v: int): (r: BootSector)
    ensures r == b
  {
    b
  }

  function SetNrLogicalSectors(m: Sector.Stores, b: BootSector, v: int): (r: BootSector)
    ensures NrLogicalSectors(r) == if v == NrLogicalSectors(b) then v else Sector.Stored16(m, v)
    ensures Unchanged(r, b, TOTAL_SECTORS_16_OFFSET, TOTAL_SECTORS_16_OFFSET + 2)
  {
    if v == NrLogicalSectors(b) then b else Sector.Put16(m, b, TOTAL_SECTORS_16_OFFSET, v)
  }

  /** `setNrTotalSectors`: there is no no-op test, so the sector always
      becomes dirty; as written the field keeps what it held. */
  function SetNrTotalSectors(m: Sector.Stores, b: BootSector, v: int): (r: BootSector)
    ensures r.dirty
    ensures NrTotalSectors(r) == if m.AsWritten? then NrTotalSectors(b) else v % UINT32_LIMIT
    ensures Unchanged(r, b, TOTAL_SECTORS_32_OFFSET, TOTAL_SECTORS_32_OFFSET + 4)
  {
    Sector.Put32(m, b, TOTAL_SECTORS_32_OFFSET, v)
  }

  /** `setSectorCount`: counts above 65535 zero the 16-bit field; the
      32-bit field receives the count in both cases.  As written the
      32-bit field keeps its old value, and a count that fits 16 bits
      reads back with its low byte moved up. */
  function SetSectorCount(m: Sector.Stores, b: BootSector, c: int): (r: BootSector)
    ensures c > 0xFFFF ==> NrLogicalSectors(r) == 0
    ensures c <= 0xFFFF ==> NrLogicalSectors(r) == if c == NrLogicalSectors(b) then c else Sector.Stored16(m, c)
    ensures NrTotalSectors(r) == if m.AsWritten? then NrTotalSectors(b) else c % UINT32_LIMIT
    ensures m.Intended? && 0 <= c < UINT32_LIMIT ==> SectorCount(r) == c
    ensures BytesPerSector(r) == BytesPerSector(b) && RootDirEntryCount(r) == RootDirEntryCount(b)
  {
    var b1 := if c > 0xFFFF then SetNrLogicalSectors(m, b, 0) else SetNrLogicalSectors(m, b, c);
    var r := SetNrTotalSectors(m, b1, c);
    assert NrLogicalSectors(r) == NrLogicalSectors(b1) by {
      assert r.Data()[TOTAL_SECTORS_16_OFFSET] == b1.Data()[TOTAL_SECTORS_16_OFFSET];
      assert r.Data()[TOTAL_SECTORS_16_OFFSET + 1] == b1.Data()[TOTAL_SECTORS_16_OFFSET + 1];
    }
    SameField16(r, b, BYTES_PER_SECTOR_OFFSET);
    SameField16(r, b, ROOT_DIR_ENTRIES_OFFSET);
    if m.Intended? && 0 <= c < UINT32_LIMIT then
      SmallMod(c, UINT32_LIMIT);
      if c <= 0xFFFF then SmallMod(c, 0x1_0000); r else r
    else r
  }

  function SetSectorsPerFat(m: Sector.Stores, b: BootSector, v: int): (r: Result<BootSector>)
    ensures r.Ok? <==> v == SectorsPerFat(b) || v <= 0x7FFF
    ensures r.Ok? ==> SectorsPerFat(r.value) == if v == SectorsPerFat(b) then v else Sector.Stored16(m, v)
    ensures r.Ok? ==> Unchanged(r.value, b, SECTORS_PER_FAT_OFFSET, SECTORS_PER_FAT_OFFSET + 2)
  {
    if v == SectorsPerFat(b) then Ok(b)
    else if v > 0x7FFF then Err(InvalidGeometry)
    else Ok(Sector.Put16(m, b, SECTORS_PER_FAT_OFFSET, v))
  }

  /** `setRootDirEntryCount`: negative counts are rejected even when equal
      to nothing stored (the check comes before the no-op test). */
  function SetRootDirEntryCount(m: Sector.Stores, b: BootSector, v: int): (r: Result<BootSector>)
    ensures r.Ok? <==> v >= 0
    ensures r.Ok? ==> RootDirEntryCount(r.value) == if v == RootDirEntryCount(b) then v else Sector.Stored16(m, v)
    ensures r.Ok? ==> Unchanged(r.value, b, ROOT_DIR_ENTRIES_OFFSET, ROOT_DIR_ENTRIES_OFFSET + 2)
  {
    if v < 0 then Err(NegativeCount)
    else if v == RootDirEntryCount(b) then Ok(b)
    else Ok(Sector.Put16(m, b, ROOT_DIR_ENTRIES_OFFSET, v))
  }

  // ---------------------------------------------------------- text fields

  /** Number of non-zero bytes at `off` before the first zero, at most
      `max`. */
  function ZeroTerminatedLength(data: seq<Byte>, off: nat, max: nat): (n: nat)
    requires off + max <= |data|
    ensures n <= max
    ensures forall i :: off <= i < off + n ==> data[i] != 0
    ensures n < max ==> data[off + n] == 0
    decreases max
  {
    if max == 0 || data[off] == 0 then 0
    else 1 + ZeroTerminatedLength(data, off + 1, max - 1)
  }

  /** The text of a zero-terminated field of at most `max` bytes. */
  function ZeroTerminated(b: BootSector, off: nat, max: nat): (s: Str)
    requires off + max <= SIZE
    ensures |s| <= max
  {
    StrOf(b.Data()[off..off + ZeroTerminatedLength(b.Data(), off, max)])
  }

  /** The value a `char` has when it is widened to `int`. */
  function CharValue(c: Char8): (v: int)
    ensures 0 <= v < 0x80 <==> c as int < 0x80
  {
    SignedChar(ByteOf(c))
  }

  /** How many values from the start of `vs` fit in an octet. */
  function FitCount(vs: seq<int>): (k: nat)
    ensures k <= |vs|
    ensures forall i :: 0 <= i < k ==> 0 <= vs[i] < 0x100
    ensures k < |vs| ==> !(0 <= vs[k] < 0x100)
  {
    if vs == [] || !(0 <= vs[0] < 0x100) then 0 else 1 + FitCount(vs[1..])
  }

  /** `FitCount` is the one count with its two properties. */
  lemma {:induction false} FitCountIs(vs: seq<int>, k: nat)
    requires k <= |vs| && forall i :: 0 <= i < k ==> 0 <= vs[i] < 0x100
    requires k < |vs| ==> !(0 <= vs[k] < 0x100)
    ensures FitCount(vs) == k
  {
    if vs != [] && k > 0 {
      assert 0 <= vs[0] < 0x100;
      FitCountIs(vs[1..], k - 1);
    }
  }

  /** `set8` applied to each value in turn at consecutive offsets: the
      first value that does not fit in an octet throws, after the values
      before it were stored and the sector marked dirty. */
  function PutBytes(b: BootSector, off: nat, vs: seq<int>): (r: Partial<BootSector, ()>)
    requires off + |vs| <= SIZE
    ensures r.Done? <==> forall i :: 0 <= i < |vs| ==> 0 <= vs[i] < 0x100
    ensures r.Aborted? ==> r.fault == ValueOutOfRange
    ensures forall i :: 0 <= i < FitCount(vs) ==> r.state.Data()[off + i] == vs[i]
    ensures Unchanged(r.state, b, off, off + FitCount(vs))
    ensures r.state.dirty == (b.dirty || FitCount(vs) > 0) && r.state.offset == b.offset
    decreases |vs|
  {
    if vs == [] then Done(b, ())
    else
      match Sector.Set8(b, off, vs[0])
      case Err(e) => Aborted(b, e)
      case Ok(b1) => PutBytes(b1, off + 1, vs[1..])
  }

  /** The values `(int) c` of the characters of `s`. */
  function Widened(s: Str): (vs: seq<int>)
    ensures |vs| == |s|
    ensures forall i :: 0 <= i < |s| ==> vs[i] == CharValue(s[i])
    ensures (forall i :: 0 <= i < |vs| ==> 0 <= vs[i] < 0x100) <==> SevenBit(s)
  {
    seq(|s|, i requires 0 <= i < |s| => CharValue(s[i]))
  }

  /** The values a text setter stores: the characters, then zeros up to
      the field width. */
  function Padded(s: Str, width: nat): (vs: seq<int>)
    requires |s| <= width
    ensures |vs| == width
    ensures forall i :: 0 <= i < width ==> vs[i] == (if i < |s| then CharValue(s[i]) else 0)
    ensures (forall i :: 0 <= i < |vs| ==> 0 <= vs[i] < 0x100) <==> SevenBit(s)
  {
    var vs := Widened(s) + seq(width - |s|, _ => 0);
    assert forall i :: |s| <= i < width ==> vs[i] == 0;
    vs
  }

  /** Every character is a 7-bit one (`set8` of a widened `char` rejects
      the others, which are negative). */
  predicate SevenBit(s: Str)
  {
    forall i :: 0 <= i < |s| ==> s[i] as int < 0x80
  }

  /** How many characters from the start of `s` are 7-bit ones. */
  function SevenBitPrefix(s: Str): (k: nat)
    ensures k <= |s| && (k == |s| <==> SevenBit(s))
    ensures forall i :: 0 <= i < k ==> s[i] as int < 0x80
    ensures k < |s| ==> s[k] as int >= 0x80
  {
    if s == [] || s[0] as int >= 0x80 then 0
    else
      var k := 1 + SevenBitPrefix(s[1..]);
      assert forall i :: 1 <= i < k ==> s[i] == s[1..][i - 1];
      k
  }

  /** `set8` of the padded characters stops at the first character that
      is not a 7-bit one. */
  lemma PaddedFit(s: Str, width: nat)
    requires |s| <= width
    ensures FitCount(Padded(s, width)) == if SevenBit(s) then width else SevenBitPrefix(s)
    ensures FitCount(Widened(s)) == SevenBitPrefix(s)
  {
    var vs, k := Padded(s, width), SevenBitPrefix(s);
    forall i | 0 <= i < |s| ensures (0 <= vs[i] < 0x100 <==> s[i] as int < 0x80) && vs[i] == Widened(s)[i] {
    }
    if SevenBit(s) { FitCountIs(vs, width); } else { FitCountIs(vs, k); }
    FitCountIs(Widened(s), k);
  }

  /** `a` is `b` after `set8` stored the first `k` characters of `s` from
      `off` and then threw on the next one. */
  predicate PartlyStored(a: BootSector, b: BootSector, off: nat, s: Str, k: nat)
    requires k <= |s| && off + k <= SIZE
  {
    && (forall i :: 0 <= i < k ==> a.Data()[off + i] == CharValue(s[i]))
    && Unchanged(a, b, off, off + k)
    && a.dirty == (b.dirty || k > 0) && a.offset == b.offset
  }

  predicate NulFree(s: Str)
  {
    forall i :: 0 <= i < |s| ==> s[i] != 0 as char
  }

  /** Bytes holding the widened 7-bit characters of `s` read back as `s`. */
  lemma StoredText(data: seq<Byte>, off: nat, s: Str)
    requires off + |s| <= |data| && SevenBit(s)
    requires forall i :: 0 <= i < |s| ==> data[off + i] == CharValue(s[i])
    ensures StrOf(data[off..off + |s|]) == s
  {
    forall i | 0 <= i < |s|
      ensures StrOf(data[off..off + |s|])[i] == s[i]
    {
      assert data[off..off + |s|][i] == data[off + i];
    }
  }

  /** The zero-terminated length of a field is `k` when its first `k`
      bytes are non-zero and byte `k` (if inside the field) is zero. */
  lemma {:induction false} ZeroTerminatedExact(data: seq<Byte>, off: nat, max: nat, k: nat)
    requires off + max <= |data| && k <= max
    requires forall i :: off <= i < off + k ==> data[i] != 0
    requires k < max ==> data[off + k] == 0
    ensures ZeroTerminatedLength(data, off, max) == k
    decreases k
  {
    if k > 0 {
      ZeroTerminatedExact(data, off + 1, max - 1, k - 1);
    }
  }

  /** A zero-padded field holding a NUL-free 7-bit text reads back as that
      text. */
  lemma FieldRoundTrip(b: BootSector, off: nat, width: nat, s: Str)
    requires off + width <= SIZE && |s| <= width
    requires SevenBit(s) && NulFree(s)
    requires forall i :: 0 <= i < width ==> b.Data()[off + i] == Padded(s, width)[i]
    ensures ZeroTerminated(b, off, width) == s
  {
    var data := b.Data();
    forall i | off <= i < off + |s|
      ensures data[i] != 0
    {
      assert data[off + (i - off)] == Padded(s, width)[i - off];
    }
    forall i | 0 <= i < |s|
      ensures data[off + i] == CharValue(s[i])
    {
      assert data[off + i] == Padded(s, width)[i];
    }
    if |s| < width {
      assert b.Data()[off + |s|] == Padded(s, width)[|s|] == 0;
    }
    ZeroTerminatedExact(data, off, width, |s|);
    StoredText(data, off, s);
  }

  function VolumeLabel(b: BootSector): (s: Str)
    ensures |s| <= MAX_VOLUME_LABEL_LENGTH
  {
    ZeroTerminated(b, VOLUME_LABEL_OFFSET, MAX_VOLUME_LABEL_LENGTH)
  }

  /** `setVolumeLabel`: at most 11 characters, zero padded to 11.  A
      character beyond seven bits throws after the ones before it were
      stored. */
  function SetVolumeLabel(b: BootSector, text: Str): (r: Partial<BootSector, ()>)
    ensures r.Done? <==> |text| <= MAX_VOLUME_LABEL_LENGTH && SevenBit(text)
    ensures |text| > MAX_VOLUME_LABEL_LENGTH ==> r == Aborted(b, LabelTooLong)
    ensures Unchanged(r.state, b, VOLUME_LABEL_OFFSET, VOLUME_LABEL_OFFSET + MAX_VOLUME_LABEL_LENGTH)
    ensures r.Done? && NulFree(text) ==> VolumeLabel(r.state) == text
    ensures r.Done? ==> r.state.dirty && r.state.offset == b.offset
    ensures |text| <= MAX_VOLUME_LABEL_LENGTH && !SevenBit(text) ==>
              r.fault == ValueOutOfRange && PartlyStored(r.state, b, VOLUME_LABEL_OFFSET, text, SevenBitPrefix(text))
  {
    if |text| > MAX_VOLUME_LABEL_LENGTH then Aborted(b, LabelTooLong)
    else
      var r := PutBytes(b, VOLUME_LABEL_OFFSET, Padded(text, MAX_VOLUME_LABEL_LENGTH));
      PaddedFit(text, MAX_VOLUME_LABEL_LENGTH);
      if r.Done? && NulFree(text) then
        FieldRoundTrip(r.state, VOLUME_LABEL_OFFSET, MAX_VOLUME_LABEL_LENGTH, text);
        r
      else r
  }

  /** A label with a character beyond seven bits in third place leaves
      the first two characters stored and the sector dirty. */
  lemma LabelStopsAtWideChar(b: BootSector)
    ensures var r := SetVolumeLabel(b, ['A', 'B', 0xE9 as char]);
            && r == Aborted(r.state, ValueOutOfRange) && r.state.dirty
            && r.state.Data()[VOLUME_LABEL_OFFSET] == 'A' as int && r.state.Data()[VOLUME_LABEL_OFFSET + 1] == 'B' as int
            && r.state.Data()[VOLUME_LABEL_OFFSET + 2] == b.Data()[VOLUME_LABEL_OFFSET + 2]
  {
    var text: Str := ['A', 'B', 0xE9 as char];
    assert !SevenBit(text) && SevenBitPrefix(text) == 2;
    assert CharValue('A') == 'A' as int && CharValue('B') == 'B' as int;
  }

  function OemName(b: BootSector): (s: Str)
    ensures |s| <= 8
  {
    ZeroTerminated(b, OEM_NAME_OFFSET, 8)
  }

  /** `setOemName`: at most 8 characters, zero padded to 8.  A character
      beyond seven bits throws after the ones before it were stored. */
  function SetOemName(b: BootSector, name: Str): (r: Partial<BootSector, ()>)
    ensures r.Done? <==> |name| <= 8 && SevenBit(name)
    ensures |name| > 8 ==> r == Aborted(b, NameTooLong)
    ensures Unchanged(r.state, b, OEM_NAME_OFFSET, OEM_NAME_OFFSET + 8)
    ensures r.Done? && NulFree(name) ==> OemName(r.state) == name
    ensures |name| <= 8 && !SevenBit(name) ==>
              r.fault == ValueOutOfRange && PartlyStored(r.state, b, OEM_NAME_OFFSET, name, SevenBitPrefix(name))
  {
    if |name| > 8 then Aborted(b, NameTooLong)
    else
      var r := PutBytes(b, OEM_NAME_OFFSET, Padded(name, 8));
      PaddedFit(name, 8);
      if r.Done? && NulFree(name) then
        FieldRoundTrip(r.state, OEM_NAME_OFFSET, 8, name);
        r
      else r
  }

  /** `getFileSystemTypeLabel`: all eight bytes, NULs included. */
  function FileSystemTypeLabel(b: BootSector): (s: Str)
    ensures |s| == FILE_SYSTEM_TYPE_LENGTH
  {
    StrOf(b.Data()[FILE_SYSTEM_TYPE_OFFSET..FILE_SYSTEM_TYPE_OFFSET + FILE_SYSTEM_TYPE_LENGTH])
  }

  /** `setFileSystemTypeLabel`: exactly eight characters.  A character
      beyond seven bits throws after the ones before it were stored. */
  function SetFileSystemTypeLabel(b: BootSector, s: Str): (r: Partial<BootSector, ()>)
    ensures r.Done? <==> |s| == FILE_SYSTEM_TYPE_LENGTH && SevenBit(s)
    ensures |s| != FILE_SYSTEM_TYPE_LENGTH ==> r == Aborted(b, BadNameLength)
    ensures r.Done? ==> FileSystemTypeLabel(r.state) == s
    ensures Unchanged(r.state, b, FILE_SYSTEM_TYPE_OFFSET, FILE_SYSTEM_TYPE_OFFSET + FILE_SYSTEM_TYPE_LENGTH)
    ensures |s| == FILE_SYSTEM_TYPE_LENGTH && !SevenBit(s) ==>
              r.fault == ValueOutOfRange && PartlyStored(r.state, b, FILE_SYSTEM_TYPE_OFFSET, s, SevenBitPrefix(s))
  {
    if |s| != FILE_SYSTEM_TYPE_LENGTH then Aborted(b, BadNameLength)
    else
      var r := PutBytes(b, FILE_SYSTEM_TYPE_OFFSET, Widened(s));
      PaddedFit(s, |s|);
      if r.Done? then
        StoredText(r.state.Data(), FILE_SYSTEM_TYPE_OFFSET, s);
        r
      else r
  }

  // ------------------------------------------------------- read and init

  /** `BootSector::read`: the first 512 device bytes must end in 0x55 0xAA
      and have a non-zero sectors-per-cluster byte; the result is the
      FAT16 boot sector, clean and mirroring the device.  (The source reads
      the same 512 bytes twice: once to check them, once into the sector.) */
  function Read(d: Device.Device): (r: Result<BootSector>)
    ensures r.Ok? <==> (|d.data| >= SIZE && d.data[510] == 0x55 && d.data[511] == 0xAA
                       && d.data[SECTORS_PER_CLUSTER_OFFSET] != 0)
    ensures r.Ok? ==> r.value.Data() == d.data[..SIZE] && !r.value.dirty && r.value.offset == 0
  {
    var s :- Sector.ReadFrom(Sector.Create(0, SIZE), d);
    if s.Data()[510] != 0x55 || s.Data()[511] != 0xAA then Err(MissingSignature)
    else if s.Data()[SECTORS_PER_CLUSTER_OFFSET] == 0 then Err(SuspiciousClusterSize)
    else Ok(s)
  }

  /** The fixed bytes `BootSector::init` stamps: the extended boot
      signature, the x86 jump instruction and the 0x55 0xAA signature. */
  function BootCode(b: BootSector): (r: BootSector)
    ensures r.Data()[EXTENDED_BOOT_SIGNATURE_OFFSET] == EXTENDED_BOOT_SIGNATURE
    ensures r.Data()[0] == 0xeb && r.Data()[1] == 0x3c && r.Data()[2] == 0x90
    ensures r.Data()[510] == 0x55 && r.Data()[511] == 0xAA
    ensures forall i :: 3 <= i < 510 && i != EXTENDED_BOOT_SIGNATURE_OFFSET ==> r.Data()[i] == b.Data()[i]
  {
    var b1 := Sector.Set8(b, EXTENDED_BOOT_SIGNATURE_OFFSET, EXTENDED_BOOT_SIGNATURE).value;
    var b2 := Sector.Set8(b1, 0x00, 0xeb).value;
    var b3 := Sector.Set8(b2, 0x01, 0x3c).value;
    var b4 := Sector.Set8(b3, 0x02, 0x90).value;
    var b5 := Sector.Set8(b4, 0x1fe, 0x55).value;
    Sector.Set8(b5, 0x1ff, 0xaa).value
  }

  /** Two sectors that agree on the bytes of a 16-bit field agree on the
      field. */
  lemma SameField16(a: BootSector, b: BootSector, o: nat)
    requires o + 2 <= SIZE
    requires a.Data()[o] == b.Data()[o] && a.Data()[o + 1] == b.Data()[o + 1]
    ensures Sector.Get16(a, o) == Sector.Get16(b, o)
  {
  }

  /** Two sectors that agree on both sector-count fields agree on the
      sector count. */
  lemma SameSectorCount(a: BootSector, b: BootSector)
    requires forall i :: TOTAL_SECTORS_16_OFFSET <= i < TOTAL_SECTORS_16_OFFSET + 2 ==> a.Data()[i] == b.Data()[i]
    requires forall i :: TOTAL_SECTORS_32_OFFSET <= i < TOTAL_SECTORS_32_OFFSET + 4 ==> a.Data()[i] == b.Data()[i]
    ensures SectorCount(a) == SectorCount(b)
  {
    SameField16(a, b, TOTAL_SECTORS_16_OFFSET);
    assert a.Data()[TOTAL_SECTORS_32_OFFSET + 2] == b.Data()[TOTAL_SECTORS_32_OFFSET + 2];
    assert a.Data()[TOTAL_SECTORS_32_OFFSET + 3] == b.Data()[TOTAL_SECTORS_32_OFFSET + 3];
  }

  lemma BootCodeKeepsGeometry(b: BootSector)
    ensures BytesPerSector(BootCode(b)) == BytesPerSector(b)
    ensures SectorCount(BootCode(b)) == SectorCount(b)
    ensures RootDirEntryCount(BootCode(b)) == RootDirEntryCount(b)
  {
    var r := BootCode(b);
    SameField16(r, b, BYTES_PER_SECTOR_OFFSET);
    SameField16(r, b, ROOT_DIR_ENTRIES_OFFSET);
    SameSectorCount(r, b);
  }

  /** The geometry `BootSector::init` leaves: the stamped bytes keep the
      sector size and the sector count it stored. */
  lemma StampedGeometry(m: Sector.Stores, b: BootSector, count: nat)
    ensures BytesPerSector(BootCode(SetSectorCount(m, b, count))) == BytesPerSector(b)
    ensures RootDirEntryCount(BootCode(SetSectorCount(m, b, count))) == RootDirEntryCount(b)
    ensures m.Intended? && count < UINT32_LIMIT ==> SectorCount(BootCode(SetSectorCount(m, b, count))) == count
  {
    BootCodeKeepsGeometry(SetSectorCount(m, b, count));
  }

  /** `BootSector::init`, given the device's sector size and byte size.
      As written, a new sector size reads back as 0 and the 32-bit sector
      count is never stored. */
  function InitGeneric(m: Sector.Stores, b: BootSector, sectorSize: int, deviceSize: nat): (r: Result<BootSector>)
    requires sectorSize > 0
    ensures r.Ok? <==> sectorSize == BytesPerSector(b) || sectorSize in {512, 1024, 2048, 4096}
    ensures r.Ok? ==> BytesPerSector(r.value) == if sectorSize == BytesPerSector(b) then sectorSize else Sector.Stored16(m, sectorSize)
    ensures r.Ok? && m.Intended? ==> BytesPerSector(r.value) == sectorSize
    ensures r.Ok? && m.AsWritten? && sectorSize != BytesPerSector(b) ==> BytesPerSector(r.value) == 0
    ensures r.Ok? && m.Intended? && deviceSize / sectorSize < UINT32_LIMIT ==> SectorCount(r.value) == deviceSize / sectorSize
    ensures r.Ok? ==> RootDirEntryCount(r.value) == RootDirEntryCount(b)
    ensures r.Ok? ==> r.value.Data()[510] == 0x55 && r.value.Data()[511] == 0xAA
    ensures r.Ok? ==> r.value.Data()[0] == 0xeb && r.value.Data()[1] == 0x3c && r.value.Data()[2] == 0x90
    ensures r.Ok? ==> r.value.Data()[EXTENDED_BOOT_SIGNATURE_OFFSET] == EXTENDED_BOOT_SIGNATURE
  {
    DivBelow(deviceSize, sectorSize);
    var count: nat := deviceSize / sectorSize;
    match SetBytesPerSector(m, b, sectorSize)
    case Err(f) => Err(f)
    case Ok(b1) =>
      SameField16(b1, b, ROOT_DIR_ENTRIES_OFFSET);
      StampedGeometry(m, b1, count);
      Ok(BootCode(SetSectorCount(m, b1, count)))
  }

  /** `Fat16BootSector::init`: the generic initialisation, then 512 root
      directory entries and the label "NO NAME".  As written, 512 root
      entries read back as 0 unless the field already held 512. */
  function Init(m: Sector.Stores, b: BootSector, sectorSize: int, deviceSize: nat): (r: Result<BootSector>)
    requires sectorSize > 0
    ensures r.Ok? <==> sectorSize == BytesPerSector(b) || sectorSize in {512, 1024, 2048, 4096}
    ensures r.Ok? ==> BytesPerSector(r.value) == if sectorSize == BytesPerSector(b) then sectorSize else Sector.Stored16(m, sectorSize)
    ensures r.Ok? && m.Intended? ==> BytesPerSector(r.value) == sectorSize
    ensures r.Ok? && m.Intended? && deviceSize / sectorSize < UINT32_LIMIT ==> SectorCount(r.value) == deviceSize / sectorSize
    ensures r.Ok? ==> r.value.Data()[510] == 0x55 && r.value.Data()[511] == 0xAA
    ensures r.Ok? ==> RootDirEntryCount(r.value) == if RootDirEntryCount(b) == DEFAULT_ROOT_DIR_ENTRY_COUNT
                                                    then DEFAULT_ROOT_DIR_ENTRY_COUNT
                                                    else Sector.Stored16(m, DEFAULT_ROOT_DIR_ENTRY_COUNT)
    ensures r.Ok? && m.Intended? ==> RootDirEntryCount(r.value) == DEFAULT_ROOT_DIR_ENTRY_COUNT
    ensures r.Ok? ==> VolumeLabel(r.value) == DEFAULT_VOLUME_LABEL
  {
    match InitGeneric(m, b, sectorSize, deviceSize)
    case Err(f) => Err(f)
    case Ok(b1) =>
      DefaultRootAndLabel(m, b1);
      SmallMod(DEFAULT_ROOT_DIR_ENTRY_COUNT, 0x1_0000);
      Ok(WithDefaults(m, b1))
  }

  /** The second half of `Fat16BootSector::init`: 512 root directory
      entries, then the default label. */
  function WithDefaults(m: Sector.Stores, b: BootSector): (r: BootSector)
  {
    assert SevenBit(DEFAULT_VOLUME_LABEL) && NulFree(DEFAULT_VOLUME_LABEL);
    SetVolumeLabel(SetRootDirEntryCount(m, b, DEFAULT_ROOT_DIR_ENTRY_COUNT).value, DEFAULT_VOLUME_LABEL).state
  }

  lemma DefaultRootAndLabel(m: Sector.Stores, b: BootSector)
    ensures RootDirEntryCount(WithDefaults(m, b)) == if RootDirEntryCount(b) == DEFAULT_ROOT_DIR_ENTRY_COUNT
                                                     then DEFAULT_ROOT_DIR_ENTRY_COUNT
                                                     else Sector.Stored16(m, DEFAULT_ROOT_DIR_ENTRY_COUNT)
    ensures VolumeLabel(WithDefaults(m, b)) == DEFAULT_VOLUME_LABEL
    ensures BytesPerSector(WithDefaults(m, b)) == BytesPerSector(b)
    ensures SectorCount(WithDefaults(m, b)) == SectorCount(b)
    ensures WithDefaults(m, b).Data()[510] == b.Data()[510] && WithDefaults(m, b).Data()[511] == b.Data()[511]
  {
    assert SevenBit(DEFAULT_VOLUME_LABEL) && NulFree(DEFAULT_VOLUME_LABEL);
    var b2 := SetRootDirEntryCount(m, b, DEFAULT_ROOT_DIR_ENTRY_COUNT).value;
    var b3 := SetVolumeLabel(b2, DEFAULT_VOLUME_LABEL).state;
    SameField16(b3, b2, ROOT_DIR_ENTRIES_OFFSET);
    SameField16(b3, b, BYTES_PER_SECTOR_OFFSET);
    SameSectorCount(b3, b);
  }

  /** On a fresh (all-zero) sector, `Fat16BootSector::init` as written
      leaves a 512-byte sector size and 512 root entries reading back as
      0; the evidently intended stores leave 512 and 512. */
  lemma InitAsWrittenLosesGeometry(deviceSize: nat)
    ensures var w := Init(Sector.AsWritten, Sector.Create(0, SIZE), 512, deviceSize);
            w.Ok? && BytesPerSector(w.value) == 0 && RootDirEntryCount(w.value) == 0
    ensures var i := Init(Sector.Intended, Sector.Create(0, SIZE), 512, deviceSize);
            i.Ok? && BytesPerSector(i.value) == 512 && RootDirEntryCount(i.value) == 512
  {
    var z: BootSector := Sector.Create(0, SIZE);
    assert BytesPerSector(z) == 0 && RootDirEntryCount(z) == 0 by {
      assert z.Data()[BYTES_PER_SECTOR_OFFSET] == 0 && z.Data()[BYTES_PER_SECTOR_OFFSET + 1] == 0;
      assert z.Data()[ROOT_DIR_ENTRIES_OFFSET] == 0 && z.Data()[ROOT_DIR_ENTRIES_OFFSET + 1] == 0;
    }
  }

  /** An initialised boot sector with a cluster size set, once on a device,
      is accepted by `Read`. */
  lemma InitThenRead(m: Sector.Stores, b: BootSector, sectorSize: int, deviceSize: nat, d: Device.Device)
    requires sectorSize > 0 && Init(m, b, sectorSize, deviceSize).Ok?
    requires |d.data| >= SIZE && d.data[..SIZE] == Init(m, b, sectorSize, deviceSize).value.Data()
    requires Init(m, b, sectorSize, deviceSize).value.Data()[SECTORS_PER_CLUSTER_OFFSET] != 0
    ensures Read(d).Ok? && Read(d).value.Data() == Init(m, b, sectorSize, deviceSize).value.Data()
  {
    var s := Init(m, b, sectorSize, deviceSize).value;
    assert d.data[510] == s.Data()[510] && d.data[511] == s.Data()[511];
    assert d.data[SECTORS_PER_CLUSTER_OFFSET] == s.Data()[SECTORS_PER_CLUSTER_OFFSET];
  }
}
