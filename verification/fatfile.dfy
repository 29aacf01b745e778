/** `FatFile`: an open file.  Its directory entry is the one the directory
    lists (an identity in the shared store), and its cluster chain holds
    the bytes.  The entry's length is the file's length; the chain may
    hold up to one cluster more. */
module FatFile {
  import opened Wrappers
  import opened Bytes
  import FatType
  import Fat
  import ClusterChain
  import Device
  import ByteBuffer
  import FsObject
  import DirEntry
  import Directory

  datatype File = File(entry: Directory.Id, chain: ClusterChain.Chain, obj: FsObject.Flags)

  /** The invariant of an open file: its entry is in the store and records
      the chain's first cluster, and the length fits in the chain. */
  predicate Fits(f: Fat.Fat, s: Directory.Store, file: File)
  {
    && file.entry in s.cells
    && DirEntry.GetStartCluster(s.cells[file.entry]) == file.chain.start
    && ClusterChain.LengthOnDisk(f, file.chain).Ok?
    && DirEntry.GetLength(s.cells[file.entry]) <= ClusterChain.LengthOnDisk(f, file.chain).value
  }

  /** `get(fat, entry)`: a directory is refused, the chain is opened at the
      entry's start cluster, and an entry longer than its chain is
      refused.  The file is read-only when the entry object is. */
  function Get(f: Fat.Fat, s: Directory.Store, id: Directory.Id, clusterSize: int, dataOffset: int): (r: Result<File>)
    requires id in s.cells
    ensures DirEntry.IsDirectory(s.cells[id]) ==> r == Err(IsADirectory)
    ensures r.Ok? ==> Fits(f, s, r.value)
    ensures r.Ok? ==> r.value.entry == id && r.value.obj == FsObject.Create(s.cells[id].obj.readOnly)
    ensures r.Ok? ==> r.value.chain.clusterSize == clusterSize && r.value.chain.dataOffset == dataOffset
    ensures var e := s.cells[id];
            var c := ClusterChain.Open(f, DirEntry.GetStartCluster(e), clusterSize, dataOffset);
            !DirEntry.IsDirectory(e) && c.Ok? && Fits(f, s, File(id, c.value, FsObject.Create(e.obj.readOnly))) ==> r.Ok?
  {
    var e := s.cells[id];
    if DirEntry.IsDirectory(e) then Err(IsADirectory)
    else
      var c :- ClusterChain.Open(f, DirEntry.GetStartCluster(e), clusterSize, dataOffset);
      var onDisk :- ClusterChain.LengthOnDisk(f, c);
      if DirEntry.GetLength(e) > onDisk then Err(LengthBeyondChain)
      else Ok(File(id, c, FsObject.Create(e.obj.readOnly)))
  }

  /** `getLength()`: the length stored in the entry, once the file is
      checked to be valid. */
  function GetLength(s: Directory.Store, file: File): (r: Result<int>)
    requires file.entry in s.cells
    ensures r.Ok? <==> file.obj.valid
    ensures r.Err? ==> r.fault == NotValid
    ensures r.Ok? ==> 0 <= r.value < UINT32_LIMIT && r.value == DirEntry.GetLength(s.cells[file.entry])
  {
    var _ :- FsObject.CheckValid(file.obj);
    Ok(DirEntry.GetLength(s.cells[file.entry]))
  }

  /** When `setLength(length)` succeeds: a writable file that keeps its
      invariant, a length an `int` holds, and a chain that can grow or
      shrink to the clusters the length needs. */
  ghost predicate Settable(f: Fat.Fat, s: Directory.Store, file: File, length: int)
    requires f.Valid()
  {
    && FsObject.CheckWritable(file.obj).Ok? && Fits(f, s, file)
    && 0 <= length <= INT_MAX && file.chain.clusterSize > 0 && f.kind == FatType.Fat16
    && (length == DirEntry.GetLength(s.cells[file.entry])
        || ClusterChain.Resizable(f, file.chain, ClusterChain.ClustersFor(length, file.chain.clusterSize)))
  }

  /** `setLength(length)`: nothing happens when the length is unchanged;
      otherwise the chain is resized to the length rounded up to whole
      clusters, and the entry gets the chain's first cluster and the new
      length.  Only the file's own entry changes. */
  method SetLength(f: Fat.Fat, s: Directory.Store, file: File, length: int)
    returns (r: Partial<(Fat.Fat, Directory.Store, File), ()>)
    requires f.Valid() && file.entry in s.cells && file.chain.clusterSize > 0
    ensures r.state.0.Valid() && r.state.0.lastClusterIndex == f.lastClusterIndex && |r.state.0.entries| == |f.entries|
    ensures Directory.Changed(s, r.state.1, file.entry)
    ensures r.state.2 == file.(chain := file.chain.(start := r.state.2.chain.start))
    ensures FsObject.CheckWritable(file.obj).Err? ==> r == Aborted((f, s, file), FsObject.CheckWritable(file.obj).fault)
    ensures FsObject.CheckWritable(file.obj).Ok? && DirEntry.GetLength(s.cells[file.entry]) == length ==>
              r == Done((f, s, file), ())
    ensures r.Done? ==> GetLength(r.state.1, r.state.2) == Ok(length % UINT32_LIMIT)
    ensures Settable(f, s, file, length) ==>
              && r.Done? && Fits(r.state.0, r.state.1, r.state.2)
              && GetLength(r.state.1, r.state.2) == Ok(length)
              && (DirEntry.GetLength(s.cells[file.entry]) != length ==>
                    ClusterChain.LengthOnDisk(r.state.0, r.state.2.chain).value < length + file.chain.clusterSize)
  {
    var writable := FsObject.CheckWritable(file.obj);
    if writable.Err? {
      return Aborted((f, s, file), writable.fault);
    }
    var e := s.cells[file.entry];
    if DirEntry.GetLength(e) == length {
      return Done((f, s, file), ());
    }
    var sized := ClusterChain.SetSize(f, file.chain, length);
    var (g, c) := sized.state;
    if Settable(f, s, file, length) {
      Grows(f, file.chain, length);
    }
    if sized.Aborted? {
      return Aborted((g, s, file.(chain := c)), sized.fault);
    }
    var withStart := DirEntry.SetStartCluster(e, c.start);
    if withStart.Err? {
      return Aborted((g, s, file.(chain := c)), withStart.fault);
    }
    var withLength := DirEntry.SetLength(withStart.value, length);
    if withLength.Err? {
      return Aborted((g, s.(cells := s.cells[file.entry := withStart.value]), file.(chain := c)), withLength.fault);
    }
    if 0 <= length <= INT_MAX {
      DirEntry.LengthRoundTrip(withStart.value, length);
    }
    r := Done((g, s.(cells := s.cells[file.entry := withLength.value]), file.(chain := c)), ());
  }

  /** A resizable chain resized for a length an `int` holds succeeds; the
      new chain holds the length with less than a cluster to spare, and
      its first cluster, a data cluster of a FAT16 table, fits the entry's
      16-bit field. */
  lemma Grows(f: Fat.Fat, c: ClusterChain.Chain, length: int)
    requires f.Valid() && f.kind == FatType.Fat16 && c.clusterSize > 0 && 0 <= length <= INT_MAX
    requires ClusterChain.Resizable(f, c, ClusterChain.ClustersFor(length, c.clusterSize))
    ensures var r := ClusterChain.SetSize(f, c, length);
            && r.Done? && 0 <= r.state.1.start < 0x1_0000
            && ClusterChain.LengthOnDisk(r.state.0, r.state.1) == Ok(r.value)
            && length <= r.value < length + c.clusterSize
  {
    FewClusters(length, c.clusterSize);
    ClusterChain.SetSizeResizes(f, c, length);
    var r := ClusterChain.SetSize(f, c, length);
    StartFits(r.state.0, r.state.1);
  }

  /** Rounding a length up to whole clusters gives no more clusters than
      bytes. */
  lemma FewClusters(length: int, clusterSize: int)
    requires 0 <= length && clusterSize > 0
    ensures 0 <= ClusterChain.ClustersFor(length, clusterSize) <= length
  {
    var n := ClusterChain.ClustersFor(length, clusterSize);
    ClusterChain.RoundUp(length, clusterSize);
    if n > length {
      MulMonotone(length + 1, n, clusterSize);
      assert (length + 1) * clusterSize >= length + clusterSize by {
        MulNonNegative(length, clusterSize - 1);
      }
    }
  }

  /** The first cluster of a sound chain in a FAT16 table fits in 16 bits. */
  lemma StartFits(h: Fat.Fat, d: ClusterChain.Chain)
    requires ClusterChain.Sound(h, d) && h.lastClusterIndex <= 0xFFF8
    ensures 0 <= d.start < 0x1_0000
  {
    if d.start != 0 {
      var cs := Fat.GetChain(h, d.start).value;
      assert cs[0] == d.start < h.lastClusterIndex;
    }
  }

  /** `read(offset, dest)`: fills the buffer's remaining bytes from file
      byte `offset`.  An empty read does nothing; one that would pass the
      file's length fails with end of file before the chain is touched. */
  function Read(f: Fat.Fat, dev: Device.Device, s: Directory.Store, file: File, offset: nat, b: ByteBuffer.Buffer)
    : (r: Result<ByteBuffer.Buffer>)
    requires file.entry in s.cells && file.chain.clusterSize > 0 && 0 <= b.pos <= b.Capacity()
    ensures !file.obj.valid ==> r == Err(NotValid)
    ensures file.obj.valid && b.pos == b.Capacity() ==> r == Ok(b)
    ensures file.obj.valid && b.pos < b.Capacity() && offset + (b.Capacity() - b.pos) > DirEntry.GetLength(s.cells[file.entry]) ==>
              r == Err(EndOfFile)
    ensures r.Ok? ==> r.value.pos == b.Capacity() && r.value.Capacity() == b.Capacity()
  {
    var _ :- FsObject.CheckValid(file.obj);
    var len := b.Capacity() - b.pos;
    if len == 0 then Ok(b)
    else if offset + len > DirEntry.GetLength(s.cells[file.entry]) then Err(EndOfFile)
    else ClusterChain.ReadData(f, dev, file.chain, offset, b)
  }

  /** A valid file's non-empty read within its length is the chain's
      `readData`. */
  lemma ReadThrough(f: Fat.Fat, dev: Device.Device, s: Directory.Store, file: File, offset: nat, b: ByteBuffer.Buffer)
    requires file.entry in s.cells && file.chain.clusterSize > 0 && 0 <= b.pos < b.Capacity() && file.obj.valid
    requires offset + (b.Capacity() - b.pos) <= DirEntry.GetLength(s.cells[file.entry])
    ensures Read(f, dev, s, file, offset, b) == ClusterChain.ReadData(f, dev, file.chain, offset, b)
  {
  }

  /** When `write(offset, src)` succeeds: a writable file that keeps its
      invariant, a last byte an `int` holds, and, when the write passes the
      end, a chain that can grow to hold it. */
  ghost predicate Writable(f: Fat.Fat, s: Directory.Store, file: File, lastByte: int)
    requires f.Valid()
  {
    && FsObject.CheckWritable(file.obj).Ok? && Fits(f, s, file)
    && lastByte <= INT_MAX && file.chain.clusterSize > 0 && f.kind == FatType.Fat16
    && (lastByte <= DirEntry.GetLength(s.cells[file.entry])
        || ClusterChain.Resizable(f, file.chain, ClusterChain.ClustersFor(lastByte, file.chain.clusterSize)))
  }

  /** Reading the file from `offset` into any buffer shaped like `b`
      succeeds and gives the bytes of `b` from its position on. */
  ghost predicate ReadsBack(f: Fat.Fat, dev: Device.Device, s: Directory.Store, file: File, offset: nat, b: ByteBuffer.Buffer)
    requires file.entry in s.cells && file.chain.clusterSize > 0 && 0 <= b.pos <= b.Capacity()
  {
    forall b2: ByteBuffer.Buffer {:trigger Read(f, dev, s, file, offset, b2)} | b2.pos == b.pos && b2.Capacity() == b.Capacity() ::
      && Read(f, dev, s, file, offset, b2).Ok?
      && Read(f, dev, s, file, offset, b2).value.buf[b.pos..] == b.buf[b.pos..]
  }

  /** `write(offset, src)`: a write past the end first sets the length to
      its last byte, then the bytes go to the chain.  The length never
      shrinks, and the bytes written read back. */
  method Write(f: Fat.Fat, dev: Device.Device, s: Directory.Store, file: File, offset: nat, b: ByteBuffer.Buffer)
    returns (r: Partial<(Fat.Fat, Directory.Store, File, Device.Device), ByteBuffer.Buffer>)
    requires f.Valid() && file.entry in s.cells && file.chain.clusterSize > 0 && 0 <= b.pos <= b.Capacity()
    ensures r.state.0.Valid() && Directory.Changed(s, r.state.1, file.entry)
    ensures r.state.2 == file.(chain := file.chain.(start := r.state.2.chain.start))
    ensures |r.state.3.data| == |dev.data|
    ensures FsObject.CheckWritable(file.obj).Err? ==> r == Aborted((f, s, file, dev), FsObject.CheckWritable(file.obj).fault)
    ensures r.Done? ==> r.value.buf == b.buf && r.value.pos == b.Capacity()
    ensures r.Done? ==>
              var before := DirEntry.GetLength(s.cells[file.entry]);
              var lastByte := offset + (b.Capacity() - b.pos);
              GetLength(r.state.1, r.state.2) == Ok(if lastByte > before then lastByte % UINT32_LIMIT else before)
    ensures Writable(f, s, file, offset + (b.Capacity() - b.pos)) && r.Done? ==>
              Fits(r.state.0, r.state.1, r.state.2) && ReadsBack(r.state.0, r.state.3, r.state.1, r.state.2, offset, b)
  {
    var writable := FsObject.CheckWritable(file.obj);
    if writable.Err? {
      return Aborted((f, s, file, dev), writable.fault);
    }
    var lastByte := offset + (b.Capacity() - b.pos);
    if lastByte > DirEntry.GetLength(s.cells[file.entry]) {
      var grown := SetLength(f, s, file, lastByte);
      if grown.Aborted? {
        return Aborted((grown.state.0, grown.state.1, grown.state.2, dev), grown.fault);
      }
      r := Store(grown.state.0, dev, grown.state.1, grown.state.2, offset, b);
    } else {
      r := Store(f, dev, s, file, offset, b);
    }
  }

  /** The transfer step of `write`: `writeData` on the file's chain.  A
      file whose length already covers the write keeps its chain, and its
      bytes read back. */
  method Store(g: Fat.Fat, dev: Device.Device, t: Directory.Store, file: File, offset: nat, b: ByteBuffer.Buffer)
    returns (r: Partial<(Fat.Fat, Directory.Store, File, Device.Device), ByteBuffer.Buffer>)
    requires g.Valid() && file.entry in t.cells && file.chain.clusterSize > 0 && 0 <= b.pos <= b.Capacity()
    ensures r.state.0.Valid() && r.state.1 == t && |r.state.3.data| == |dev.data|
    ensures r.state.2 == file.(chain := file.chain.(start := r.state.2.chain.start))
    ensures r.Done? ==> r.value.buf == b.buf && r.value.pos == b.Capacity()
    ensures Fits(g, t, file) && file.obj.valid && offset + (b.Capacity() - b.pos) <= DirEntry.GetLength(t.cells[file.entry]) && r.Done? ==>
              Fits(r.state.0, r.state.1, r.state.2) && ReadsBack(r.state.0, r.state.3, r.state.1, r.state.2, offset, b)
  {
    var w := ClusterChain.WriteData(g, dev, file.chain, offset, b);
    var after := file.(chain := w.state.1);
    r := if w.Done? then Done((w.state.0, t, after, w.state.2), w.value)
         else Aborted((w.state.0, t, after, w.state.2), w.fault);
    if r.Done? && Fits(g, t, file) && file.obj.valid && offset + (b.Capacity() - b.pos) <= DirEntry.GetLength(t.cells[file.entry]) {
      assert after == file;
      forall b2: ByteBuffer.Buffer | b2.pos == b.pos && b2.Capacity() == b.Capacity()
        ensures && Read(w.state.0, w.state.2, t, after, offset, b2).Ok?
                && Read(w.state.0, w.state.2, t, after, offset, b2).value.buf[b.pos..] == b.buf[b.pos..]
      {
        if b.pos == b.Capacity() {
          assert b2.buf[b.pos..] == [] == b.buf[b.pos..];
        } else {
          ReadThrough(w.state.0, w.state.2, t, after, offset, b2);
        }
      }
    }
  }

  /** `flush()`: only the writability check; the data is already on the
      device. */
  function Flush(file: File): (r: Result<()>)
    ensures r.Ok? <==> file.obj.valid && !file.obj.readOnly
    ensures r.Err? ==> r.fault == (if file.obj.valid then ReadOnlyObject else NotValid)
  {
    FsObject.CheckWritable(file.obj)
  }
}
