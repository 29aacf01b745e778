/** The file allocation table: one entry per cluster, held in memory and
    written to each FAT copy on the device.  Entry 0 carries the medium
    descriptor, entry 1 the end-of-chain marker; clusters are numbered from
    2.  A free cluster has entry 0, and a cluster in a chain holds the
    number of the next cluster or an end-of-chain value. */
module Fat {
  import opened Bytes
  import opened Wrappers
  import FatType
  import BootSector
  import ByteBuffer
  import Device

  const FIRST_CLUSTER: int := 2
  const INT_MIN: int := -0x8000_0000

  /** `typeId` stands for the address of the `FatType` object the table was
      built with: every construction asks the boot sector for its type,
      which allocates a new object each time.  `cursor` is
      `lastAllocatedCluster`. */
  /** Entry `i` of `es` is not negative.  A predicate of its own so that
      `Valid` speaks about an entry only where a proof names it. */
  predicate Nonnegative(es: seq<int>, i: int)
    requires 0 <= i < |es|
  {
    es[i] >= 0
  }

  /** No entry of `es` is negative. */
  predicate AllNonnegative(es: seq<int>)
  {
    forall i :: 0 <= i < |es| ==> Nonnegative(es, i)
  }

  /** Storing a non-negative value keeps every entry non-negative. */
  lemma NonnegativeUpdate(es: seq<int>, k: int, v: int)
    requires AllNonnegative(es) && 0 <= k < |es| && v >= 0
    ensures AllNonnegative(es[k := v])
  {
    var u := es[k := v];
    forall i | 0 <= i < |u|
      ensures Nonnegative(u, i)
    {
      if i != k {
        assert Nonnegative(es, i);
      }
    }
  }

  datatype Fat = Fat(entries: seq<int>, kind: FatType.FatKind, typeId: nat,
                     sectorCount: int, sectorSize: int, lastClusterIndex: int,
                     cursor: int, offset: nat)
  {
    /** What construction establishes and every operation keeps. */
    predicate Valid()
    {
      && 0 <= lastClusterIndex <= |entries|
      && sectorCount > 0 && sectorSize > 0
      && 0 <= Times(|entries|, FatType.EntrySize(kind)) <= Size()
      && FIRST_CLUSTER <= cursor
      && (cursor <= lastClusterIndex || cursor == FIRST_CLUSTER)
      && AllNonnegative(entries)
    }

    /** The bytes of one FAT copy. */
    function Size(): int { sectorCount * sectorSize }
  }

  /** Boot sectors for which the constructor's arithmetic is defined: the
      type check divides by the bytes per sector and by the sectors per
      cluster, the table size is an `int` product, and the data-cluster
      count is narrowed to `int` and incremented by two. */
  predicate Computable(bs: BootSector.BootSector)
  {
    && BootSector.BytesPerSector(bs) != 0
    && BootSector.SectorsPerCluster(bs) != 0
    && BootSector.SectorsPerFat(bs) * BootSector.BytesPerSector(bs) <= INT_MAX
    && INT_MIN <= BootSector.DataClusterCount(bs)
    && !(INT_MAX - FIRST_CLUSTER < BootSector.DataClusterCount(bs) <= INT_MAX)
  }

  /** The number of entries the constructor allocates. */
  function EntryCount(bs: BootSector.BootSector, k: FatType.FatKind): (n: nat)
    ensures n * FatType.EntrySize(k) <= BootSector.SectorsPerFat(bs) * BootSector.BytesPerSector(bs)
  {
    var size := BootSector.SectorsPerFat(bs) * BootSector.BytesPerSector(bs);
    MulNonNegative(BootSector.SectorsPerFat(bs), BootSector.BytesPerSector(bs));
    DivBelow(size, FatType.EntrySize(k));
    size / FatType.EntrySize(k)
  }

  /** The `Fat` constructor: validates the geometry and allocates an all-zero
      table of `sectorsPerFat * bytesPerSector / entrySize` entries, with the
      allocation cursor at the first cluster. */
  function New(bs: BootSector.BootSector, offset: nat, typeId: nat): (r: Result<Fat>)
    requires Computable(bs)
    ensures r.Ok? <==> (&& BootSector.FatClusterCount(bs) <= BootSector.MAX_FAT16_CLUSTERS
                        && BootSector.SectorsPerFat(bs) > 0
                        && BootSector.DataClusterCount(bs) <= INT_MAX
                        && BootSector.DataClusterCount(bs) != 0
                        && 0 <= BootSector.DataClusterCount(bs) + FIRST_CLUSTER <= EntryCount(bs, FatType.Fat16))
    ensures r.Ok? ==> r.value.Valid() && r.value.kind == FatType.Fat16 && r.value.typeId == typeId
    ensures r.Ok? ==> r.value.lastClusterIndex == BootSector.DataClusterCount(bs) + FIRST_CLUSTER
    ensures r.Ok? ==> |r.value.entries| == EntryCount(bs, FatType.Fat16)
    ensures r.Ok? ==> forall i :: 0 <= i < |r.value.entries| ==> r.value.entries[i] == 0
    ensures r.Ok? ==> r.value.cursor == FIRST_CLUSTER && r.value.offset == offset
    ensures r.Ok? ==> r.value.sectorCount == BootSector.SectorsPerFat(bs) && r.value.sectorSize == BootSector.BytesPerSector(bs)
  {
    var kind :- BootSector.GetFatType(bs);
    var spf, bps := BootSector.SectorsPerFat(bs), BootSector.BytesPerSector(bs);
    if spf > INT_MAX then Err(InvalidGeometry)
    else if spf <= 0 then Err(InvalidGeometry)
    else if bps <= 0 then Err(InvalidGeometry)
    else
      var dcc := BootSector.DataClusterCount(bs);
      if dcc > INT_MAX then Err(TooManyClusters)
      else if dcc == 0 then Err(NoDataClusters)
      else
        var lastClusterIndex := dcc + FIRST_CLUSTER;
        var n := EntryCount(bs, kind);
        // the comparison converts a negative index to a huge unsigned value
        if lastClusterIndex < 0 || lastClusterIndex > n then Err(FatTooSmall)
        else
          TimesIs(n, FatType.EntrySize(kind));
          Ok(Fat(seq(n, _ => 0), kind, typeId, spf, bps, lastClusterIndex, FIRST_CLUSTER, offset))
  }

  // ----------------------------------------------------------- the codec

  /** The entries stored in the first `n` slots of a table image. */
  function DecodeEntries(k: FatType.FatKind, data: seq<Byte>, n: nat): (es: seq<int>)
    requires Times(n, FatType.EntrySize(k)) <= |data|
    ensures |es| == n
    ensures forall i :: 0 <= i < n ==> 0 <= es[i] <= FatType.BitMask(k)
  {
    TimesIs(n, FatType.EntrySize(k));
    seq(n, i requires 0 <= i < n => FatType.ReadEntry(k, data, i))
  }

  /** The table image `writeCopy` builds: a zeroed buffer of `size` bytes
      with the entries written in index order. */
  function EncodeEntries(k: FatType.FatKind, es: seq<int>, size: nat): (data: seq<Byte>)
    requires Times(|es|, FatType.EntrySize(k)) <= size
    ensures |data| == size
    ensures (TimesIs(|es|, FatType.EntrySize(k));
             forall i :: 0 <= i < |es| ==> FatType.ReadEntry(k, data, i) == FatType.Truncate(k, es[i]))
    ensures forall i :: |es| * FatType.EntrySize(k) <= i < size ==> data[i] == 0
  {
    if es == [] then seq(size, _ => 0)
    else
      var m := |es| - 1;
      var w := FatType.EntrySize(k);
      TimesIs(|es|, w);
      TimesIs(m, w);
      assert m * w + w == |es| * w;
      var prefix := EncodeEntries(k, es[..m], size);
      EncodeStep(k, es, prefix);
      FatType.WriteEntry(k, prefix, m, es[m])
  }

  /** The inductive step of `EncodeEntries`: writing the last entry over an
      image that already holds the others keeps them and adds it. */
  lemma EncodeStep(k: FatType.FatKind, es: seq<int>, prefix: seq<Byte>)
    requires |es| > 0 && |es| * FatType.EntrySize(k) <= |prefix|
    requires forall i :: 0 <= i < |es| - 1 ==> FatType.ReadEntry(k, prefix, i) == FatType.Truncate(k, es[i])
    requires forall i :: (|es| - 1) * FatType.EntrySize(k) <= i < |prefix| ==> prefix[i] == 0
    ensures var data := FatType.WriteEntry(k, prefix, |es| - 1, es[|es| - 1]);
      && (forall i :: 0 <= i < |es| ==> FatType.ReadEntry(k, data, i) == FatType.Truncate(k, es[i]))
      && (forall i :: |es| * FatType.EntrySize(k) <= i < |prefix| ==> data[i] == 0)
  {
    var m, w := |es| - 1, FatType.EntrySize(k);
    var data := FatType.WriteEntry(k, prefix, m, es[m]);
    forall i | 0 <= i < m
      ensures FatType.ReadEntry(k, data, i) == FatType.Truncate(k, es[i])
    {
      MulMonotone(i + 1, m, w);
      SameEntryBytes(k, data, prefix, i);
    }
  }

  /** An entry depends only on its own bytes. */
  lemma SameEntryBytes(k: FatType.FatKind, a: seq<Byte>, b: seq<Byte>, index: nat)
    requires (index + 1) * FatType.EntrySize(k) <= |a| && (index + 1) * FatType.EntrySize(k) <= |b|
    requires forall i :: index * FatType.EntrySize(k) <= i < (index + 1) * FatType.EntrySize(k) ==> a[i] == b[i]
    ensures FatType.ReadEntry(k, a, index) == FatType.ReadEntry(k, b, index)
  {
    var o := index * FatType.EntrySize(k);
    assert a[o] == b[o] && a[o + 1] == b[o + 1];
    if k == FatType.Fat32 {
      assert a[o + 2] == b[o + 2] && a[o + 3] == b[o + 3];
    }
  }

  /** Decoding an encoded table gives back each entry's low bits; entries
      that fit the mask come back unchanged. */
  lemma DecodeEncode(k: FatType.FatKind, es: seq<int>, size: nat)
    requires Times(|es|, FatType.EntrySize(k)) <= size
    ensures forall i :: 0 <= i < |es| ==>
              DecodeEntries(k, EncodeEntries(k, es, size), |es|)[i] == FatType.Truncate(k, es[i])
    ensures (forall i :: 0 <= i < |es| ==> 0 <= es[i] <= FatType.BitMask(k)) ==>
              DecodeEntries(k, EncodeEntries(k, es, size), |es|) == es
  {
    var ds := DecodeEntries(k, EncodeEntries(k, es, size), |es|);
    if forall i :: 0 <= i < |es| ==> 0 <= es[i] <= FatType.BitMask(k) {
      forall i | 0 <= i < |es|
        ensures ds[i] == es[i]
      {
        assert ds[i] == FatType.Truncate(k, es[i]);
      }
    }
  }

  // ------------------------------------------------------ device transfer

  /** `read()`: fills the table from the copy's bytes on the device. */
  function Load(f: Fat, d: Device.Device): (r: Result<Fat>)
    requires f.Valid()
    ensures r.Ok? <==> f.offset + f.Size() <= |d.data|
    ensures r.Ok? ==> r.value == f.(entries := r.value.entries) && r.value.Valid()
    ensures r.Ok? ==> r.value.entries == DecodeEntries(f.kind, d.data[f.offset..f.offset + f.Size()], |f.entries|)
  {
    match Device.Read(d, f.offset, ByteBuffer.Allocate(f.Size()))
    case Err(e) => Err(e)
    case Ok(bb) =>
      assert bb.buf == d.data[f.offset..f.offset + f.Size()];
      Ok(f.(entries := DecodeEntries(f.kind, bb.buf, |f.entries|)))
  }

  /** Loading depends only on the device: a loaded table loads to itself. */
  lemma LoadTwice(f: Fat, d: Device.Device)
    requires f.Valid()
    ensures Load(f, d).Ok? ==> Load(Load(f, d).value, d) == Load(f, d)
  {
  }

  /** `Fat::read`: constructs the table for FAT copy `fatNr` and fills it
      from the device.  A copy number equal to the FAT count passes the
      range check. */
  function Read(bs: BootSector.BootSector, fatNr: nat, d: Device.Device, typeId: nat): (r: Result<Fat>)
    requires Computable(bs)
    ensures r.Ok? <==> (&& fatNr <= BootSector.NrFats(bs)
                        && New(bs, BootSector.FatOffset(bs, fatNr), typeId).Ok?
                        && BootSector.FatOffset(bs, fatNr) + New(bs, BootSector.FatOffset(bs, fatNr), typeId).value.Size() <= |d.data|)
    ensures r.Ok? ==> r.value.Valid() && r.value.typeId == typeId && r.value.offset == BootSector.FatOffset(bs, fatNr)
    ensures r.Ok? ==> Load(r.value, d) == r
    ensures r.Ok? ==> r.value == New(bs, BootSector.FatOffset(bs, fatNr), typeId).value.(entries := r.value.entries)
  {
    if fatNr > BootSector.NrFats(bs) then Err(NoFats)
    else
      var offset := BootSector.FatOffset(bs, fatNr);
      match New(bs, offset, typeId)
      case Err(e) => Err(e)
      case Ok(f) =>
        LoadTwice(f, d);
        Load(f, d)
  }

  /** `Fat::read` with the range check it evidently intends: only the copies
      `0 .. getNrFats() - 1` exist. */
  function ReadCopy(bs: BootSector.BootSector, fatNr: nat, d: Device.Device, typeId: nat): (r: Result<Fat>)
    requires Computable(bs)
    ensures fatNr >= BootSector.NrFats(bs) ==> r == Err(NoFats)
    ensures fatNr < BootSector.NrFats(bs) ==> r == Read(bs, fatNr, d, typeId)
  {
    if fatNr >= BootSector.NrFats(bs) then Err(NoFats) else Read(bs, fatNr, d, typeId)
  }

  /** The check as written lets through the copy number equal to the FAT
      count: that "copy" is read from the root directory region, which the
      corrected read refuses. */
  lemma ReadPastLastCopy(bs: BootSector.BootSector, d: Device.Device, typeId: nat)
    requires Computable(bs) && BootSector.NrFats(bs) >= 0
    requires var off := BootSector.RootDirOffset(bs);
      New(bs, off, typeId).Ok? && off + New(bs, off, typeId).value.Size() <= |d.data|
    ensures var r := Read(bs, BootSector.NrFats(bs), d, typeId);
      r.Ok? && r.value.offset == BootSector.RootDirOffset(bs)
    ensures ReadCopy(bs, BootSector.NrFats(bs), d, typeId) == Err(NoFats)
  {
  }

  /** `writeCopy(offset)`: encodes the table and writes it at `offset`. */
  function WriteCopy(f: Fat, d: Device.Device, offset: nat): (r: Result<Device.Device>)
    requires f.Valid()
    ensures r.Ok? <==> offset + f.Size() <= |d.data|
    ensures r.Err? ==> r.fault == DevicePastEnd
    ensures r.Ok? ==> |r.value.data| == |d.data|
    ensures r.Ok? ==> r.value.data[offset..offset + f.Size()] == EncodeEntries(f.kind, f.entries, f.Size())
    ensures r.Ok? ==> forall i :: 0 <= i < |d.data| && !(offset <= i < offset + f.Size()) ==> r.value.data[i] == d.data[i]
  {
    var data := EncodeEntries(f.kind, f.entries, f.Size());
    match Device.Write(d, offset, ByteBuffer.Wrap(data))
    case Err(e) => Err(e)
    case Ok(w) =>
      Device.WriteBytes(d, offset, ByteBuffer.Wrap(data));
      assert w.0.data[offset..offset + f.Size()] == data;
      Ok(w.0)
  }

  /** Loading a copy that was just written restores every entry that fits
      an entry's width. */
  lemma LoadAfterWrite(f: Fat, d: Device.Device)
    requires f.Valid() && f.offset + f.Size() <= |d.data|
    requires forall i :: 0 <= i < |f.entries| ==> f.entries[i] <= FatType.BitMask(f.kind)
    ensures WriteCopy(f, d, f.offset).Ok?
    ensures Load(f, WriteCopy(f, d, f.offset).value) == Ok(f)
  {
    LoadEncoded(f, WriteCopy(f, d, f.offset).value);
  }

  /** A device that holds a table's encoding at its offset loads to that
      table. */
  lemma LoadEncoded(f: Fat, d: Device.Device)
    requires f.Valid() && f.offset + f.Size() <= |d.data|
    requires forall i :: 0 <= i < |f.entries| ==> f.entries[i] <= FatType.BitMask(f.kind)
    requires d.data[f.offset..f.offset + f.Size()] == EncodeEntries(f.kind, f.entries, f.Size())
    ensures Load(f, d) == Ok(f)
  {
    forall i | 0 <= i < |f.entries|
      ensures 0 <= f.entries[i] <= FatType.BitMask(f.kind)
    {
      assert Nonnegative(f.entries, i);
    }
    DecodeEncode(f.kind, f.entries, f.Size());
  }

  /** The tail of `Fat::create`: `init` followed by `write`. */
  function Stamp(f: Fat, mediumDescriptor: int, d: Device.Device): (r: Result<(Device.Device, Fat)>)
    requires f.Valid() && |f.entries| >= 3 && f.kind == FatType.Fat16
    requires forall i :: 0 <= i < |f.entries| ==> f.entries[i] == 0
    ensures r.Ok? <==> f.offset + f.Size() <= |d.data|
    ensures r.Ok? ==> var g := r.value.1;
      && g == f.(entries := g.entries) && g.Valid() && |g.entries| == |f.entries|
      && MediumDescriptor(g) == mediumDescriptor % 0x100
      && IsEof(g, g.entries[1])
      && (forall i :: FIRST_CLUSTER <= i < |g.entries| ==> g.entries[i] == 0)
    ensures r.Ok? ==> Load(r.value.1, r.value.0) == Ok(r.value.1)
  {
    var g := Init(f, mediumDescriptor);
    InitFresh(f, mediumDescriptor);
    match WriteCopy(g, d, g.offset)
    case Err(e) => Err(e)
    case Ok(d2) =>
      LoadAfterWrite(g, d);
      Ok((d2, g))
  }

  /** Stamping a freshly constructed table keeps it valid, every entry fits
      the mask, and the data clusters stay free. */
  lemma InitFresh(f: Fat, mediumDescriptor: int)
    requires f.Valid() && |f.entries| >= 3 && f.kind == FatType.Fat16
    requires forall i :: 0 <= i < |f.entries| ==> f.entries[i] == 0
    ensures var g := Init(f, mediumDescriptor);
      && g.Valid()
      && (forall i :: 0 <= i < |g.entries| ==> g.entries[i] <= FatType.BitMask(g.kind))
      && (forall i :: FIRST_CLUSTER <= i < |g.entries| ==> g.entries[i] == 0)
  {
    var g := Init(f, mediumDescriptor);
    forall i | 0 <= i < |g.entries|
      ensures 0 <= g.entries[i] <= FatType.BitMask(g.kind)
    {
      if i >= FIRST_CLUSTER {
        assert g.entries[i] == f.entries[i];
      }
    }
  }

  /** `Fat::create`: constructs FAT copy `fatNr`, checks that it has an
      entry per data cluster, stamps entries 0 and 1 and writes it. */
  function Create(bs: BootSector.BootSector, fatNr: nat, d: Device.Device, typeId: nat): (r: Result<(Device.Device, Fat)>)
    requires Computable(bs)
    ensures r.Ok? ==> && fatNr <= BootSector.NrFats(bs)
                      && 0 < BootSector.DataClusterCount(bs) <= |r.value.1.entries|
    ensures r.Ok? ==> var f := r.value.1;
      && f.Valid() && |f.entries| >= 3 && f.typeId == typeId
      && f.offset == BootSector.FatOffset(bs, fatNr)
      && MediumDescriptor(f) == BootSector.MediumDescriptor(bs) % 0x100
      && IsEof(f, f.entries[1])
      && (forall i :: FIRST_CLUSTER <= i < |f.entries| ==> f.entries[i] == 0)
    ensures r.Ok? ==> Load(r.value.1, r.value.0) == Ok(r.value.1)
  {
    if fatNr > BootSector.NrFats(bs) then Err(NoFats)
    else
      var offset := BootSector.FatOffset(bs, fatNr);
      match New(bs, offset, typeId)
      case Err(e) => Err(e)
      case Ok(f) =>
        // a negative count converts to a huge unsigned value and fails too
        var dcc := BootSector.DataClusterCount(bs);
        if dcc < 0 || dcc > |f.entries| then Err(FatTooSmall)
        else Stamp(f, BootSector.MediumDescriptor(bs), d)
  }

  /** `init(mediumDescriptor)`: entry 0 gets the descriptor's low byte under
      the mask's high bits, entry 1 the end-of-chain marker. */
  function Init(f: Fat, mediumDescriptor: int): (r: Fat)
    requires |f.entries| >= 2 && f.kind == FatType.Fat16
    ensures r == f.(entries := r.entries) && |r.entries| == |f.entries|
    ensures MediumDescriptor(r) == mediumDescriptor % 0x100
    ensures r.entries[0] / 0x100 == 0xFF
    ensures r.entries[1] == FatType.EofMarker(f.kind) && IsEof(r, r.entries[1])
    ensures forall i :: 2 <= i < |f.entries| ==> r.entries[i] == f.entries[i]
    ensures 0 <= r.entries[0] <= 0xFFFF && r.entries[1] == 0xFFFF
  {
    // (md & 0xFF) | (0xFFFFF00 & 0xFFFF): the two operands share no bits
    var low := mediumDescriptor % 0x100;
    var e0 := low + 0xFF00;
    assert e0 % 0x100 == low && e0 / 0x100 == 0xFF;
    f.(entries := f.entries[0 := e0][1 := FatType.EofMarker(f.kind)])
  }

  /** `getMediumDescriptor`: the low byte of entry 0. */
  function MediumDescriptor(f: Fat): (md: int)
    requires |f.entries| > 0
    ensures 0 <= md < 0x100
    ensures (f.entries[0] - md) % 0x100 == 0
  {
    f.entries[0] % 0x100
  }

  predicate IsEof(f: Fat, e: int)
  {
    FatType.IsEofCluster(f.kind, e)
  }

  // -------------------------------------------------------------- chains

  /** `testCluster`: a cluster number must index a data entry of the table
      (its size, not the last data cluster). */
  function TestCluster(f: Fat, c: int): (r: Result<()>)
    ensures r.Ok? <==> FIRST_CLUSTER <= c < |f.entries|
    ensures r.Err? ==> r.fault == InvalidCluster
  {
    Need(FIRST_CLUSTER <= c < |f.entries|, InvalidCluster)
  }

  /** `cs` is the chain starting at `s`: each element's entry is the next
      element and is not an end-of-chain value, and the last element's
      entry is one. */
  ghost predicate IsChain(f: Fat, s: int, cs: seq<int>)
  {
    && |cs| > 0 && cs[0] == s
    && (forall i :: 0 <= i < |cs| ==> 0 <= cs[i] < |f.entries|)
    && (forall i :: 0 <= i < |cs| - 1 ==> Linked(f, cs, i))
    && IsEof(f, f.entries[cs[|cs| - 1]])
  }

  /** Element `i` of `cs` links to element `i + 1`. */
  ghost predicate Linked(f: Fat, cs: seq<int>, i: nat)
    requires i < |cs| - 1
  {
    0 <= cs[i] < |f.entries| && f.entries[cs[i]] == cs[i + 1] && !IsEof(f, f.entries[cs[i]])
  }

  /** Follows the links from `c`.  The source follows them unchecked: a
      link out of the table reads past the vector and a loop never ends.
      Both are reported as a corrupt chain, and `fuel` bounds the walk. */
  function Walk(f: Fat, c: int, fuel: nat): (r: Result<seq<int>>)
    requires 0 <= c < |f.entries|
    ensures r.Ok? ==> IsChain(f, c, r.value) && |r.value| <= fuel + 1
    ensures r.Err? ==> r.fault == CorruptChain
    decreases fuel
  {
    var e := f.entries[c];
    if IsEof(f, e) then Ok([c])
    else if fuel == 0 || e < 0 || e >= |f.entries| then Err(CorruptChain)
    else
      match Walk(f, e, fuel - 1)
      case Err(x) => Err(x)
      case Ok(rest) =>
        ChainCons(f, c, rest);
        Ok([c] + rest)
  }

  /** `getChain(startCluster)`. */
  function GetChain(f: Fat, s: int): (r: Result<seq<int>>)
    ensures r.Ok? ==> IsChain(f, s, r.value)
    ensures r.Err? ==> r.fault == (if FIRST_CLUSTER <= s < |f.entries| then CorruptChain else InvalidCluster)
    ensures !(FIRST_CLUSTER <= s < |f.entries|) ==> r.Err?
  {
    if !(FIRST_CLUSTER <= s < |f.entries|) then Err(InvalidCluster)
    else Walk(f, s, |f.entries|)
  }

  /** The chain from a cluster is unique. */
  lemma {:induction false} ChainUnique(f: Fat, s: int, a: seq<int>, b: seq<int>)
    requires IsChain(f, s, a) && IsChain(f, s, b)
    ensures a == b
    decreases |a|
  {
    if |a| > 1 {
      assert Linked(f, a, 0);
    }
    if |b| > 1 {
      assert Linked(f, b, 0);
    }
    if |a| > 1 {
      ChainSuffix(f, s, a);
      ChainSuffix(f, s, b);
      ChainUnique(f, a[1], a[1..], b[1..]);
      assert a == [s] + a[1..] && b == [s] + b[1..];
    }
  }

  /** A cluster that links to the start of a chain heads a longer chain. */
  lemma ChainCons(f: Fat, c: int, cs: seq<int>)
    requires |cs| > 0 && IsChain(f, cs[0], cs)
    requires 0 <= c < |f.entries| && f.entries[c] == cs[0] && !IsEof(f, f.entries[c])
    ensures IsChain(f, c, [c] + cs)
  {
    var t := [c] + cs;
    forall i | 0 <= i < |t| - 1
      ensures Linked(f, t, i)
    {
      if i > 0 {
        assert Linked(f, cs, i - 1);
        assert t[i] == cs[i - 1] && t[i + 1] == cs[i];
      }
    }
  }

  /** Dropping the first element of a chain leaves the chain of its
      successor. */
  lemma ChainSuffix(f: Fat, s: int, cs: seq<int>)
    requires IsChain(f, s, cs) && |cs| > 1
    ensures IsChain(f, cs[1], cs[1..])
  {
    var t := cs[1..];
    forall i | 0 <= i < |t| - 1
      ensures Linked(f, t, i)
    {
      assert Linked(f, cs, i + 1);
      assert t[i] == cs[i + 1] && t[i + 1] == cs[i + 2];
    }
  }

  /** A chain never visits a cluster twice: a repeat would repeat forever
      and never reach the end-of-chain entry. */
  lemma {:induction false} ChainDistinct(f: Fat, s: int, cs: seq<int>)
    requires IsChain(f, s, cs)
    ensures forall i, j :: 0 <= i < j < |cs| ==> cs[i] != cs[j]
    decreases |cs|
  {
    if |cs| > 1 {
      ChainSuffix(f, s, cs);
      ChainDistinct(f, cs[1], cs[1..]);
      forall j | 0 < j < |cs|
        ensures cs[0] != cs[j]
      {
        if cs[0] == cs[j] {
          // the chain from cs[j] is both cs[j..] and, by following the
          // same links, a strictly longer sequence
          ChainDrop(f, s, cs, j);
          ChainUnique(f, s, cs, cs[j..]);
        }
      }
      forall i, j | 0 <= i < j < |cs|
        ensures cs[i] != cs[j]
      {
        if i > 0 {
          assert cs[i] == cs[1..][i - 1] && cs[j] == cs[1..][j - 1];
        }
      }
    }
  }

  /** Any suffix of a chain is the chain of its first element. */
  lemma {:induction false} ChainDrop(f: Fat, s: int, cs: seq<int>, j: nat)
    requires IsChain(f, s, cs) && j < |cs|
    ensures IsChain(f, cs[j], cs[j..])
    decreases j
  {
    if j > 0 {
      ChainSuffix(f, s, cs);
      ChainDrop(f, cs[1], cs[1..], j - 1);
      assert cs[1..][j - 1..] == cs[j..];
    }
  }

  /** A chain is no longer than the table, because its clusters are
      distinct indices of the table. */
  lemma ChainLength(f: Fat, s: int, cs: seq<int>)
    requires IsChain(f, s, cs)
    ensures |cs| <= |f.entries|
  {
    ChainDistinct(f, s, cs);
    DistinctBound(cs, |f.entries|);
  }

  /** Pigeonhole: `n` slots hold at most `n` distinct values. */
  lemma {:induction false} DistinctBound(cs: seq<int>, n: nat)
    requires forall i :: 0 <= i < |cs| ==> 0 <= cs[i] < n
    requires forall i, j :: 0 <= i < j < |cs| ==> cs[i] != cs[j]
    ensures |cs| <= n
    decreases n
  {
    if |cs| > 0 {
      assert 0 <= cs[0] < n;
      // remove the value n - 1, if present, and recurse
      var rest := RemoveValue(cs, n - 1);
      DistinctBound(rest, n - 1);
    }
  }

  /** `cs` without the value `v`, which it holds at most once. */
  function RemoveValue(cs: seq<int>, v: int): (r: seq<int>)
    requires forall i, j :: 0 <= i < j < |cs| ==> cs[i] != cs[j]
    ensures forall i :: 0 <= i < |r| ==> r[i] in cs && r[i] != v
    ensures forall i, j :: 0 <= i < j < |r| ==> r[i] != r[j]
    ensures |r| >= |cs| - 1
    ensures v !in cs ==> |r| == |cs|
    ensures (forall i :: 0 <= i < |cs| ==> 0 <= cs[i] <= v) ==> forall i :: 0 <= i < |r| ==> 0 <= r[i] < v
  {
    if cs == [] then []
    else
      var tail := RemoveValue(cs[1..], v);
      if cs[0] == v then tail
      else
        assert cs[0] !in cs[1..];
        [cs[0]] + tail
  }

  /** Every chain is found: `getChain` returns it rather than reporting
      a corrupt chain. */
  lemma GetChainComplete(f: Fat, s: int, cs: seq<int>)
    requires IsChain(f, s, cs) && FIRST_CLUSTER <= s
    ensures GetChain(f, s) == Ok(cs)
  {
    ChainLength(f, s, cs);
    WalkComplete(f, s, cs, |f.entries|);
  }

  lemma {:induction false} WalkComplete(f: Fat, c: int, cs: seq<int>, fuel: nat)
    requires IsChain(f, c, cs) && |cs| <= fuel + 1
    ensures Walk(f, c, fuel) == Ok(cs)
    decreases fuel
  {
    if |cs| > 1 {
      assert Linked(f, cs, 0);
      ChainSuffix(f, c, cs);
      WalkComplete(f, cs[1], cs[1..], fuel - 1);
      assert cs == [c] + cs[1..];
    } else {
      assert cs == [c];
    }
  }

  /** `getNextCluster(cluster)`: the successor, or -1 at the end. */
  function GetNextCluster(f: Fat, c: int): (r: Result<int>)
    requires f.Valid()
    ensures r.Ok? <==> FIRST_CLUSTER <= c < |f.entries|
    ensures r.Ok? ==> (r.value == -1 <==> IsEof(f, f.entries[c])) && (r.value != -1 ==> r.value == f.entries[c])
  {
    if !(FIRST_CLUSTER <= c < |f.entries|) then Err(InvalidCluster)
    else if IsEof(f, f.entries[c]) then Ok(-1)
    else assert Nonnegative(f.entries, c); Ok(f.entries[c])
  }

  /** Following `getNextCluster` from each element of a chain visits the
      chain in order and ends with -1. */
  lemma NextAlongChain(f: Fat, s: int, cs: seq<int>, i: nat)
    requires f.Valid() && IsChain(f, s, cs) && i < |cs| && FIRST_CLUSTER <= cs[i]
    ensures GetNextCluster(f, cs[i]) == Ok(if i == |cs| - 1 then -1 else cs[i + 1])
  {
    FatType.ThresholdOrder(f.kind);
    if i < |cs| - 1 {
      assert Linked(f, cs, i);
    }
  }

  // ---------------------------------------------------------- allocation

  /** `isFreeCluster`: the entry is zero. */
  predicate IsFree(f: Fat, c: int)
    requires 0 <= c < |f.entries|
  {
    f.entries[c] == 0
  }

  /** The number of zero entries in `es[lo..hi]`. */
  function CountFree(es: seq<int>, lo: int, hi: int): (n: nat)
    requires 0 <= lo && hi <= |es|
    ensures n <= if lo <= hi then hi - lo else 0
    decreases hi - lo
  {
    if hi <= lo then 0
    else CountFree(es, lo, hi - 1) + (if es[hi - 1] == 0 then 1 else 0)
  }

  /** `getFreeClusterCount`: free entries among the data clusters. */
  function FreeCount(f: Fat): (n: nat)
    requires f.Valid()
    ensures n <= if FIRST_CLUSTER <= f.lastClusterIndex then f.lastClusterIndex - FIRST_CLUSTER else 0
  {
    CountFree(f.entries, FIRST_CLUSTER, f.lastClusterIndex)
  }

  /** The count is positive exactly when some entry in the range is zero. */
  lemma {:induction false} CountFreePositive(es: seq<int>, lo: int, hi: int)
    requires 0 <= lo && hi <= |es|
    ensures CountFree(es, lo, hi) > 0 <==> exists i :: lo <= i < hi && es[i] == 0
    decreases hi - lo
  {
    if lo < hi {
      CountFreePositive(es, lo, hi - 1);
      if es[hi - 1] != 0 && exists i :: lo <= i < hi && es[i] == 0 {
        var i :| lo <= i < hi && es[i] == 0;
        assert lo <= i < hi - 1;
      }
    }
  }

  /** Changing one entry changes the count by the change in its freeness. */
  lemma {:induction false} CountFreeUpdate(es: seq<int>, lo: int, hi: int, k: int, v: int)
    requires 0 <= lo && hi <= |es| && 0 <= k < |es|
    ensures CountFree(es[k := v], lo, hi) ==
              CountFree(es, lo, hi)
              + (if lo <= k < hi && v == 0 && es[k] != 0 then 1 else 0)
              - (if lo <= k < hi && v != 0 && es[k] == 0 then 1 else 0)
    decreases hi - lo
  {
    if lo < hi {
      CountFreeUpdate(es, lo, hi - 1, k, v);
    }
  }

  /** Entry `i` is in use (not free).  Its own predicate, so that the
      scan's postcondition speaks about an entry only where a proof names it. */
  predicate Taken(es: seq<int>, i: int)
    requires 0 <= i < |es|
  {
    es[i] != 0
  }

  /** The first zero entry in `es[lo..hi]`, or -1. */
  function FirstFree(es: seq<int>, lo: int, hi: int): (r: int)
    requires 0 <= lo && (hi <= |es| || hi <= lo)
    ensures r == -1 || (lo <= r < hi && es[r] == 0)
    ensures forall i :: lo <= i < hi && (r == -1 || i < r) ==> Taken(es, i)
    decreases hi - lo
  {
    if hi <= lo then -1
    else if es[lo] == 0 then lo
    else FirstFree(es, lo + 1, hi)
  }

  /** `allocNew()`: takes the first free cluster scanning from the cursor
      to the last data cluster and then from the first data cluster up to
      the cursor, marks it end-of-chain and moves the cursor there. */
  function AllocNew(f: Fat): (r: Result<(Fat, int)>)
    requires f.Valid()
    ensures r.Ok? <==> exists i :: FIRST_CLUSTER <= i < f.lastClusterIndex && f.entries[i] == 0
    ensures r.Err? ==> r.fault == FatFull
    ensures r.Ok? ==> var (g, c) := r.value;
      && FIRST_CLUSTER <= c < f.lastClusterIndex && f.entries[c] == 0
      && g == f.(entries := f.entries[c := FatType.EofMarker(f.kind)], cursor := c)
      && g.Valid()
  {
    var es := f.entries;
    var first := FirstFree(es, f.cursor, f.lastClusterIndex);
    var c := if first >= 0 then first else FirstFree(es, FIRST_CLUSTER, f.cursor);
    if c < 0 then
      assert forall i :: FIRST_CLUSTER <= i < f.lastClusterIndex ==> es[i] != 0 by {
        forall i | FIRST_CLUSTER <= i < f.lastClusterIndex
          ensures es[i] != 0
        {
          if i < f.cursor {
            assert FIRST_CLUSTER <= i < f.cursor;
          }
          assert Taken(es, i);
        }
      }
      Err(FatFull)
    else
      FatType.ThresholdOrder(f.kind);
      NonnegativeUpdate(es, c, FatType.EofMarker(f.kind));
      // c is below the last data cluster, so `c % lastClusterIndex` is c
      Ok((f.(entries := es[c := FatType.EofMarker(f.kind)], cursor := c), c))
  }

  /** `allocNew` takes the first free cluster in scan order: none between
      the cursor and the result, or, when the scan wrapped around, none
      from the cursor to the last data cluster and none from the first
      data cluster to the result. */
  lemma AllocNewScanOrder(f: Fat)
    requires f.Valid() && AllocNew(f).Ok?
    ensures var c := AllocNew(f).value.1;
      if f.cursor <= c then
        forall i :: f.cursor <= i < c ==> f.entries[i] != 0
      else
        && (forall i :: f.cursor <= i < f.lastClusterIndex ==> f.entries[i] != 0)
        && (forall i :: FIRST_CLUSTER <= i < c ==> f.entries[i] != 0)
  {
    var es := f.entries;
    var first := FirstFree(es, f.cursor, f.lastClusterIndex);
    forall i | f.cursor <= i < f.lastClusterIndex && (first == -1 || i < first)
      ensures es[i] != 0
    {
      assert Taken(es, i);
    }
    var second := FirstFree(es, FIRST_CLUSTER, f.cursor);
    forall i | FIRST_CLUSTER <= i < f.cursor && (second == -1 || i < second)
      ensures es[i] != 0
    {
      assert Taken(es, i);
    }
  }

  /** A successful `allocNew` uses up exactly one free cluster. */
  lemma AllocNewCount(f: Fat)
    requires f.Valid() && AllocNew(f).Ok?
    ensures FreeCount(AllocNew(f).value.0) == FreeCount(f) - 1
  {
    var c := AllocNew(f).value.1;
    FatType.ThresholdOrder(f.kind);
    CountFreeUpdate(f.entries, FIRST_CLUSTER, f.lastClusterIndex, c, FatType.EofMarker(f.kind));
  }

  /** `allocNew` fails exactly when no data cluster is free. */
  lemma AllocNewFull(f: Fat)
    requires f.Valid()
    ensures AllocNew(f).Err? <==> FreeCount(f) == 0
  {
    CountFreePositive(f.entries, FIRST_CLUSTER, f.lastClusterIndex);
  }

  /** `allocAppend(cluster)`: walks to the end of the chain through
      `cluster`, allocates a new cluster and links the old end to it. */
  function AllocAppend(f: Fat, c: int): (r: Result<(Fat, int)>)
    requires f.Valid()
    ensures r.Ok? ==> r.value.0.Valid() && FIRST_CLUSTER <= r.value.1 < f.lastClusterIndex
    ensures r.Err? ==> r.fault in {InvalidCluster, CorruptChain, FatFull}
    ensures r.Ok? ==> GetChain(f, c).Ok? && AllocNew(f).Ok? && AllocNew(f).value.1 == r.value.1
    ensures r.Ok? ==> var g := r.value.0;
      g == f.(entries := g.entries, cursor := g.cursor) && |g.entries| == |f.entries|
  {
    match GetChain(f, c)
    case Err(e) => Err(e)
    case Ok(cs) =>
      var tail := cs[|cs| - 1];
      match AllocNew(f)
      case Err(e) => Err(e)
      case Ok(p) =>
        var (g, n) := p;
        NonnegativeUpdate(g.entries, tail, n);
        Ok((g.(entries := g.entries[tail := n]), n))
  }

  /** Appending to a chain through any of its clusters: the chain gains
      one end-of-chain cluster that was free, and nothing else changes. */
  lemma AllocAppendExtends(f: Fat, cs: seq<int>, j: nat)
    requires f.Valid() && |cs| > 0 && IsChain(f, cs[0], cs) && j < |cs|
    requires forall i :: 0 <= i < |cs| ==> FIRST_CLUSTER <= cs[i]
    requires f.lastClusterIndex <= FatType.EofCluster(f.kind)
    requires FreeCount(f) > 0
    ensures AllocAppend(f, cs[j]).Ok?
    ensures var (g, n) := AllocAppend(f, cs[j]).value;
      && n !in cs && FIRST_CLUSTER <= n < f.lastClusterIndex && f.entries[n] == 0
      && IsChain(g, cs[0], cs + [n])
      && FreeCount(g) == FreeCount(f) - 1
      && (forall i :: 0 <= i < |f.entries| && i != n && i != cs[|cs| - 1] ==> g.entries[i] == f.entries[i])
  {
    ChainDrop(f, cs[0], cs, j);
    GetChainComplete(f, cs[j], cs[j..]);
    AllocNewFull(f);
    AllocNewCount(f);
    ChainDistinct(f, cs[0], cs);
    FatType.ThresholdOrder(f.kind);
    var (g0, n) := AllocNew(f).value;
    var last := |cs| - 1;
    var tail := cs[last];
    assert cs[j..][|cs[j..]| - 1] == tail;
    forall i | 0 <= i < |cs|
      ensures cs[i] != n
    {
      if i < last {
        assert Linked(f, cs, i);
      }
    }
    var g := AllocAppend(f, cs[j]).value.0;
    assert g.entries == f.entries[n := FatType.EofMarker(f.kind)][tail := n];
    LinkNewTail(f, g, cs, n);
    CountFreeUpdate(g0.entries, FIRST_CLUSTER, f.lastClusterIndex, tail, n);
  }

  /** Marking a cluster outside a chain end-of-chain and pointing the
      chain's last entry at it lengthens the chain by that cluster. */
  lemma LinkNewTail(f: Fat, g: Fat, cs: seq<int>, n: int)
    requires |cs| > 0 && IsChain(f, cs[0], cs)
    requires forall i, j :: 0 <= i < j < |cs| ==> cs[i] != cs[j]
    requires 0 <= n < |f.entries| && n !in cs && !IsEof(f, n)
    requires g.kind == f.kind
    requires g.entries == f.entries[n := FatType.EofMarker(f.kind)][cs[|cs| - 1] := n]
    ensures IsChain(g, cs[0], cs + [n])
  {
    var last, tail, ext := |cs| - 1, cs[|cs| - 1], cs + [n];
    FatType.EofMarkerIsEof(f.kind);
    forall i | 0 <= i < |ext| - 1
      ensures Linked(g, ext, i)
    {
      if i < last {
        assert Linked(f, cs, i);
        assert ext[i] == cs[i] != tail && ext[i + 1] == cs[i + 1];
      }
    }
  }

  /** The clusters `allocNew(n)` has handed out so far, and the table as it
      stands: each further cluster is appended to the last one.  On a
      table whose cluster numbers stay below the end-of-chain values, the
      handed-out clusters keep forming one chain: all `k` further clusters
      are appended when that many are free, and otherwise every free
      cluster is taken before the table is reported full. */
  function AllocRest(f: Fat, rc: seq<int>, k: nat): (r: Partial<Fat, seq<int>>)
    requires f.Valid() && |rc| > 0
    ensures r.state.Valid()
    ensures r.state == f.(entries := r.state.entries, cursor := r.state.cursor)
    ensures |r.state.entries| == |f.entries|
    ensures r.Done? ==> |r.value| == |rc| + k && r.value[..|rc|] == rc
    ensures r.Aborted? ==> r.fault != NegativeCount
    ensures Tracked(f, rc) && k <= FreeCount(f) ==>
              && r.Done? && DataChain(r.state, r.value)
              && FreeCount(r.state) == FreeCount(f) - k
    ensures Tracked(f, rc) && k > FreeCount(f) ==>
              r.Aborted? && r.fault == FatFull && FreeCount(r.state) == 0
    decreases k
  {
    if k == 0 then Done(f, rc)
    else
      match AppendStep(f, rc)
      case Err(e) => Aborted(f, e)
      case Ok(p) =>
        var r := AllocRest(p.0, p.1, k - 1);
        assert r.Done? ==> r.value[..|rc|] == (r.value[..|rc| + 1])[..|rc|];
        r
  }

  /** One round of `allocNew(n)`'s loop: `allocAppend` to the last cluster
      handed out, and the cluster it adds. */
  function AppendStep(f: Fat, rc: seq<int>): (r: Result<(Fat, seq<int>)>)
    requires f.Valid() && |rc| > 0
    ensures r.Ok? ==> var g := r.value.0;
      && g.Valid() && g == f.(entries := g.entries, cursor := g.cursor)
      && |g.entries| == |f.entries|
      && |r.value.1| == |rc| + 1 && r.value.1[..|rc|] == rc
    ensures r.Err? ==> r.fault != NegativeCount
    ensures Tracked(f, rc) ==> (r.Ok? <==> FreeCount(f) > 0)
    ensures Tracked(f, rc) && r.Err? ==> r.fault == FatFull
    ensures Tracked(f, rc) && r.Ok? ==>
              Tracked(r.value.0, r.value.1) && FreeCount(r.value.0) == FreeCount(f) - 1
  {
    AppendOutcome(f, rc);
    match AllocAppend(f, rc[|rc| - 1])
    case Err(e) => Err(e)
    case Ok(p) =>
      var ext := rc + [p.1];
      assert ext[..|rc|] == rc;
      Ok((p.0, ext))
  }

  /** The table and chain that `AllocRest` extends. */
  ghost predicate Tracked(f: Fat, rc: seq<int>)
  {
    DataChain(f, rc) && f.lastClusterIndex <= FatType.EofCluster(f.kind)
  }

  /** What one `allocAppend` to the end of a tracked chain gives. */
  lemma AppendOutcome(f: Fat, rc: seq<int>)
    requires f.Valid() && |rc| > 0
    ensures Tracked(f, rc) ==> (AllocAppend(f, rc[|rc| - 1]).Ok? <==> FreeCount(f) > 0)
    ensures Tracked(f, rc) && AllocAppend(f, rc[|rc| - 1]).Err? ==>
              AllocAppend(f, rc[|rc| - 1]).fault == FatFull
    ensures Tracked(f, rc) && AllocAppend(f, rc[|rc| - 1]).Ok? ==>
              var p := AllocAppend(f, rc[|rc| - 1]).value;
              && Tracked(p.0, rc + [p.1]) && FreeCount(p.0) == FreeCount(f) - 1
  {
    if Tracked(f, rc) {
      if FreeCount(f) > 0 {
        AppendToDataChain(f, rc);
      } else {
        AppendWhenFull(f, rc);
      }
    }
  }

  /** `allocNew(nrClusters)`: allocates one cluster and appends the rest
      one at a time.  A failure midway leaves the clusters already taken
      allocated: with fewer free clusters than asked for, every free
      cluster ends up taken.  A zero count indexes an empty vector in the
      source, which the requires rules out; a negative one makes the
      `std::vector` constructor throw (`length_error`), which the
      `NegativeCount` failure stands for. */
  function AllocNewN(f: Fat, n: int): (r: Partial<Fat, seq<int>>)
    requires f.Valid() && n != 0
    ensures r.state.Valid()
    ensures r.state == f.(entries := r.state.entries, cursor := r.state.cursor)
    ensures |r.state.entries| == |f.entries|
    ensures r.Done? ==> n > 0 && |r.value| == n
    ensures r.Done? ==> FIRST_CLUSTER <= r.value[0] < f.lastClusterIndex && f.entries[r.value[0]] == 0
    ensures r.Done? && n == 1 ==> r.state.entries == f.entries[r.value[0] := FatType.EofMarker(f.kind)]
    ensures r.Aborted? && r.fault == NegativeCount <==> n < 0
    ensures n < 0 ==> r.state == f
    ensures 0 < n <= FreeCount(f) && f.lastClusterIndex <= FatType.EofCluster(f.kind) ==>
              && r.Done? && DataChain(r.state, r.value)
              && FreeCount(r.state) == FreeCount(f) - n
    ensures n > FreeCount(f) && n > 0 && f.lastClusterIndex <= FatType.EofCluster(f.kind) ==>
              r.Aborted? && r.fault == FatFull && FreeCount(r.state) == 0
  {
    if n < 0 then Aborted(f, NegativeCount)
    else
      AllocNewFull(f);
      match AllocNew(f)
      case Err(e) => Aborted(f, e)
      case Ok(p) =>
        AllocNewCount(f);
        FatType.ThresholdOrder(f.kind);
        assert DataChain(p.0, [p.1]);
        AllocRest(p.0, [p.1], n - 1)
  }

  /** What `AllocRest` keeps: the handed-out clusters form a chain of data
      clusters. */
  ghost predicate DataChain(f: Fat, rc: seq<int>)
  {
    && |rc| > 0 && IsChain(f, rc[0], rc)
    && forall i :: 0 <= i < |rc| ==> FIRST_CLUSTER <= rc[i] < f.lastClusterIndex
  }

  /** One step of `AllocRest` on a data chain with a free cluster left. */
  lemma AppendToDataChain(f: Fat, rc: seq<int>)
    requires f.Valid() && DataChain(f, rc)
    requires f.lastClusterIndex <= FatType.EofCluster(f.kind)
    requires FreeCount(f) > 0
    ensures AllocAppend(f, rc[|rc| - 1]).Ok?
    ensures var (g, x) := AllocAppend(f, rc[|rc| - 1]).value;
      && DataChain(g, rc + [x]) && FreeCount(g) == FreeCount(f) - 1
  {
    AllocAppendExtends(f, rc, |rc| - 1);
  }

  /** With no free cluster left, appending fails with the table full. */
  lemma AppendWhenFull(f: Fat, rc: seq<int>)
    requires f.Valid() && DataChain(f, rc) && FreeCount(f) == 0
    ensures AllocAppend(f, rc[|rc| - 1]) == Err(FatFull)
  {
    var last := |rc| - 1;
    ChainDrop(f, rc[0], rc, last);
    GetChainComplete(f, rc[last], rc[last..]);
    AllocNewFull(f);
  }

  /** With enough free clusters, `allocNew(n)` returns `n` distinct data
      clusters that form one chain, and uses up exactly `n` free
      clusters. */
  lemma AllocNewNChain(f: Fat, n: int)
    requires f.Valid() && 0 < n <= FreeCount(f)
    requires f.lastClusterIndex <= FatType.EofCluster(f.kind)
    ensures AllocNewN(f, n).Done?
    ensures var r := AllocNewN(f, n);
      && GetChain(r.state, r.value[0]) == Ok(r.value)
      && (forall i, j :: 0 <= i < j < n ==> r.value[i] != r.value[j])
      && (forall i :: 0 <= i < n ==> FIRST_CLUSTER <= r.value[i] < f.lastClusterIndex)
      && FreeCount(r.state) == FreeCount(f) - n
  {
    var r := AllocNewN(f, n);
    GetChainComplete(r.state, r.value[0], r.value);
    ChainDistinct(r.state, r.value[0], r.value);
  }

  /** `setEof(cluster)`: ends a chain at a valid cluster. */
  function SetEof(f: Fat, c: int): (r: Result<Fat>)
    requires f.Valid()
    ensures r.Ok? <==> FIRST_CLUSTER <= c < |f.entries|
    ensures r.Err? ==> r.fault == InvalidCluster
    ensures r.Ok? ==> r.value.Valid() && |r.value.entries| == |f.entries|
    ensures r.Ok? ==> IsEof(r.value, r.value.entries[c]) && GetChain(r.value, c) == Ok([c])
    ensures r.Ok? ==> r.value == f.(entries := r.value.entries)
    ensures r.Ok? ==> forall i :: 0 <= i < |f.entries| && i != c ==> r.value.entries[i] == f.entries[i]
  {
    match TestCluster(f, c)
    case Err(e) => Err(e)
    case Ok(_) =>
      var g := f.(entries := f.entries[c := FatType.EofMarker(f.kind)]);
      FatType.ThresholdOrder(f.kind);
      NonnegativeUpdate(f.entries, c, FatType.EofMarker(f.kind));
      assert IsChain(g, c, [c]);
      GetChainComplete(g, c, [c]);
      Ok(g)
  }

  /** `setFree(cluster)`: releases a valid cluster. */
  function SetFree(f: Fat, c: int): (r: Result<Fat>)
    requires f.Valid()
    ensures r.Ok? <==> FIRST_CLUSTER <= c < |f.entries|
    ensures r.Err? ==> r.fault == InvalidCluster
    ensures r.Ok? ==> r.value.Valid() && |r.value.entries| == |f.entries| && IsFree(r.value, c)
    ensures r.Ok? ==> r.value == f.(entries := r.value.entries)
    ensures r.Ok? ==> forall i :: 0 <= i < |f.entries| && i != c ==> r.value.entries[i] == f.entries[i]
  {
    match TestCluster(f, c)
    case Err(e) => Err(e)
    case Ok(_) =>
      NonnegativeUpdate(f.entries, c, 0);
      Ok(f.(entries := f.entries[c := 0]))
  }

  /** Freeing a data cluster that was in use adds one to the free count. */
  lemma SetFreeCount(f: Fat, c: int)
    requires f.Valid() && FIRST_CLUSTER <= c < f.lastClusterIndex && !IsFree(f, c)
    ensures FreeCount(SetFree(f, c).value) == FreeCount(f) + 1
  {
    CountFreeUpdate(f.entries, FIRST_CLUSTER, f.lastClusterIndex, c, 0);
  }

  // ------------------------------------------------------------ equality

  /** Whether `a[i..]` and `b[i..]` agree, compared one entry at a time. */
  function EntriesMatch(a: seq<int>, b: seq<int>, i: nat): (r: bool)
    requires |a| == |b| && i <= |a|
    ensures r <==> a[i..] == b[i..]
    decreases |a| - i
  {
    if i == |a| then true
    else if a[i] != b[i] then false
    else
      assert a[i..] == [a[i]] + a[i + 1..] && b[i..] == [b[i]] + b[i + 1..];
      EntriesMatch(a, b, i + 1)
  }

  /** The geometry `equals` compares after the type. */
  predicate SameLayout(f: Fat, g: Fat)
  {
    && f.sectorCount == g.sectorCount && f.sectorSize == g.sectorSize
    && f.lastClusterIndex == g.lastClusterIndex
  }

  /** `equals` reads the medium descriptor of both tables at the end, so a
      comparison that gets that far needs a nonempty table. */
  predicate EqualsDefined(f: Fat, g: Fat)
  {
    |f.entries| == |g.entries| ==> |f.entries| > 0
  }

  /** `equals` as written: the type is compared by object identity. */
  function Equals(f: Fat, g: Fat): (r: bool)
    requires EqualsDefined(f, g)
    ensures r <==> f.typeId == g.typeId && SameLayout(f, g) && f.entries == g.entries
  {
    if f.typeId != g.typeId || !SameLayout(f, g) then false
    else if |f.entries| != |g.entries| then false
    else if !EntriesMatch(f.entries, g.entries, 0) then false
    else MediumDescriptor(f) == MediumDescriptor(g)
  }

  /** `equals` with the type compared by value, as intended. */
  function EqualsByKind(f: Fat, g: Fat): (r: bool)
    requires EqualsDefined(f, g)
    ensures r <==> f.kind == g.kind && SameLayout(f, g) && f.entries == g.entries
  {
    if f.kind != g.kind || !SameLayout(f, g) then false
    else if |f.entries| != |g.entries| then false
    else if !EntriesMatch(f.entries, g.entries, 0) then false
    else MediumDescriptor(f) == MediumDescriptor(g)
  }

  /** Two copies of one table built by separate constructions: identical
      contents, distinct type objects. `equals` rejects them; comparing by
      value accepts them. */
  lemma EqualsRejectsIdenticalCopies(f: Fat, t: nat)
    requires |f.entries| > 0 && t != f.typeId
    ensures !Equals(f, f.(typeId := t))
    ensures EqualsByKind(f, f.(typeId := t))
  {
  }

  /** The corrected comparison is an equivalence on the compared parts:
      reflexive, symmetric and transitive. */
  lemma EqualsByKindEquivalence(f: Fat, g: Fat, h: Fat)
    requires |f.entries| > 0 && |g.entries| > 0 && |h.entries| > 0
    ensures EqualsByKind(f, f)
    ensures EqualsByKind(f, g) ==> EqualsByKind(g, f)
    ensures EqualsByKind(f, g) && EqualsByKind(g, h) ==> EqualsByKind(f, h)
  {
  }
}
