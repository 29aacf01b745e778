/** FAT entry formats: the reserved and end-of-chain thresholds derived
    from the entry bit mask, and the little-endian entry codecs. */
module FatType {
  import opened Bytes
  import LittleEndian

  /** The two entry formats the code defines; only FAT16 is ever
      instantiated by the file system. */
  datatype FatKind = Fat16 | Fat32

  function BitMask(k: FatKind): (m: int)
    ensures 0 < m < UINT32_LIMIT
  {
    match k
    case Fat16 => 0xFFFF
    case Fat32 => 0xFFFF_FFFF
  }

  /** Largest cluster count the format allows: `(1 << 16) - 16` and
      `(1 << 28) - 16`. */
  function MaxClusters(k: FatKind): int
  {
    match k
    case Fat16 => 0x1_0000 - 16
    case Fat32 => 0x1000_0000 - 16
  }

  /** The bytes one entry takes in the table. */
  function EntrySize(k: FatKind): (n: nat)
    ensures n == 2 || n == 4
  {
    match k
    case Fat16 => 2
    case Fat32 => 4
  }

  /** The first reserved entry value.  The source derives each threshold
      by masking a 28-bit constant with the format's bit mask;
      `ThresholdsFromMask` shows these values are what that gives. */
  function MinReserved(k: FatKind): int
  {
    match k
    case Fat16 => 0xFFF0
    case Fat32 => 0xFFF_FFF0
  }

  function MaxReserved(k: FatKind): int
  {
    match k
    case Fat16 => 0xFFF6
    case Fat32 => 0xFFF_FFF6
  }

  /** Entries from this value up mark the end of a chain. */
  function EofCluster(k: FatKind): int
  {
    match k
    case Fat16 => 0xFFF8
    case Fat32 => 0xFFF_FFF8
  }

  /** The value written to end a chain. */
  function EofMarker(k: FatKind): int
  {
    match k
    case Fat16 => 0xFFFF
    case Fat32 => 0xFFF_FFFF
  }

  /** The thresholds are `0xFFFFFF0 & mask`, `0xFFFFFF6 & mask`,
      `0xFFFFFF8 & mask` and `0xFFFFFFF & mask`. */
  lemma ThresholdsFromMask(k: FatKind)
    ensures MinReserved(k) == And32(0xFFF_FFF0, BitMask(k))
    ensures MaxReserved(k) == And32(0xFFF_FFF6, BitMask(k))
    ensures EofCluster(k) == And32(0xFFF_FFF8, BitMask(k))
    ensures EofMarker(k) == And32(0xFFF_FFFF, BitMask(k))
  {
    match k
    case Fat16 =>
      assert (0xFFF_FFF0 as bv32) & (0xFFFF as bv32) == 0xFFF0 as bv32;
      assert (0xFFF_FFF6 as bv32) & (0xFFFF as bv32) == 0xFFF6 as bv32;
      assert (0xFFF_FFF8 as bv32) & (0xFFFF as bv32) == 0xFFF8 as bv32;
      assert (0xFFF_FFFF as bv32) & (0xFFFF as bv32) == 0xFFFF as bv32;
    case Fat32 =>
      assert (0xFFF_FFF0 as bv32) & (0xFFFF_FFFF as bv32) == 0xFFF_FFF0 as bv32;
      assert (0xFFF_FFF6 as bv32) & (0xFFFF_FFFF as bv32) == 0xFFF_FFF6 as bv32;
      assert (0xFFF_FFF8 as bv32) & (0xFFFF_FFFF as bv32) == 0xFFF_FFF8 as bv32;
      assert (0xFFF_FFFF as bv32) & (0xFFFF_FFFF as bv32) == 0xFFF_FFFF as bv32;
  }

  /** The thresholds are ordered: reserved values lie below the
      end-of-chain threshold, which the marker reaches, and all fit the
      mask. */
  lemma ThresholdOrder(k: FatKind)
    ensures MinReserved(k) <= MaxReserved(k) < EofCluster(k) <= EofMarker(k) <= BitMask(k)
  {
  }

  predicate IsReservedCluster(k: FatKind, e: int)
  {
    MinReserved(k) <= e <= MaxReserved(k)
  }

  predicate IsEofCluster(k: FatKind, e: int)
  {
    e >= EofCluster(k)
  }

  /** The end-of-chain marker is itself recognised as end of chain, and is
      not a reserved value. */
  lemma EofMarkerIsEof(k: FatKind)
    ensures IsEofCluster(k, EofMarker(k))
    ensures !IsReservedCluster(k, EofMarker(k))
  {
  }

  /** The low 16 (32) bits of an entry value: `e & mask` for the
      two's complement `e`. */
  function Truncate(k: FatKind, e: int): (t: int)
    ensures 0 <= t <= BitMask(k)
    ensures 0 <= e <= BitMask(k) ==> t == e
  {
    match k
    case Fat16 => e % 0x1_0000
    case Fat32 => e % 0x1_0000_0000
  }

  /** `readEntry(data, index)`: the entry stored at `index * EntrySize`. */
  function ReadEntry(k: FatKind, data: seq<Byte>, index: nat): (e: int)
    requires (index + 1) * EntrySize(k) <= |data|
    ensures 0 <= e <= BitMask(k)
  {
    match k
    case Fat16 => LittleEndian.GetUInt16(data, 2 * index)
    case Fat32 => LittleEndian.GetUInt32(data, 4 * index)
  }

  /** `writeEntry(data, index, entry)`: stores the low 16 (32) bits of the
      entry little-endian at `index * EntrySize`, touching nothing else. */
  function WriteEntry(k: FatKind, data: seq<Byte>, index: nat, e: int): (r: seq<Byte>)
    requires (index + 1) * EntrySize(k) <= |data|
    ensures |r| == |data|
    ensures ReadEntry(k, r, index) == Truncate(k, e)
    ensures forall i :: 0 <= i < |data| && !(index * EntrySize(k) <= i < (index + 1) * EntrySize(k)) ==>
                        r[i] == data[i]
  {
    match k
    case Fat16 =>
      var o := 2 * index;
      var r := data[o := Low8(e)][o + 1 := Low8(e / 0x100)];
      LittleEndian.Split16(e);
      r
    case Fat32 =>
      var o := 4 * index;
      var r := data[o := Low8(e)][o + 1 := Low8(e / 0x100)][o + 2 := Low8(e / 0x1_0000)][o + 3 := Low8(e / 0x100_0000)];
      LittleEndian.Split32(e);
      r
  }
}
