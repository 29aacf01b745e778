/** A directory kept in a cluster chain: every directory except the root
    of a FAT16 volume.  Its capacity is what the chain's clusters hold,
    it grows by growing the chain (`Directory.ChangeSize`), and a flush
    writes the table from the chain's first byte and then overwrites the
    rest of the chain with zeros.  Creating a subdirectory builds such a
    directory in one new cluster, holding "." and "..". */
module ChainDirectory {
  import opened Wrappers
  import opened Bytes
  import ByteBuffer
  import Device
  import Fat
  import FatType
  import ClusterChain
  import DirEntry
  import ShortName
  import FsObject
  import Directory

  /** The constructor: as many entries as the chain's bytes hold, the
      count narrowed to `int`.  Reading the length on disk walks the
      chain, which fails on a corrupt one. */
  function New(f: Fat.Fat, c: ClusterChain.Chain, readOnly: bool, isRoot: bool): (r: Result<Directory.Dir>)
    ensures r.Ok? <==> ClusterChain.LengthOnDisk(f, c).Ok?
    ensures r.Err? ==> r.fault == ClusterChain.LengthOnDisk(f, c).fault
    ensures r.Ok? ==> && r.value.entries == [] && r.value.volumeLabel == []
                      && r.value.readOnly == readOnly && r.value.isRoot == isRoot
                      && r.value.backend == Directory.ChainStore(c)
    ensures r.Ok? && 0 <= ClusterChain.LengthOnDisk(f, c).value <= INT_MAX ==>
              var n := ClusterChain.LengthOnDisk(f, c).value;
              0 <= r.value.capacity && DirEntry.SIZE * r.value.capacity <= n < DirEntry.SIZE * (r.value.capacity + 1)
  {
    var n :- ClusterChain.LengthOnDisk(f, c);
    Ok(Directory.New(Int32(CDiv(n, DirEntry.SIZE)), readOnly, isRoot, Directory.ChainStore(c)))
  }

  /** `delete_()`: the chain is cut to no clusters. */
  function Delete(f: Fat.Fat, c: ClusterChain.Chain): (r: Partial<(Fat.Fat, ClusterChain.Chain), ()>)
    requires f.Valid()
    ensures r.state.0.Valid() && r.state.1 == c.(start := r.state.1.start)
    ensures |r.state.0.entries| == |f.entries|
  {
    ClusterChain.SetChainLength(f, c, 0)
  }

  /** Deleting a sound chain succeeds, empties the chain and frees every
      cluster it had. */
  lemma DeleteFrees(f: Fat.Fat, c: ClusterChain.Chain)
    requires f.Valid() && ClusterChain.Sound(f, c)
    ensures Delete(f, c).Done? && Delete(f, c).state.1.start == 0
    ensures c.start != 0 ==> forall k :: k in Fat.GetChain(f, c.start).value ==> Fat.IsFree(Delete(f, c).state.0, k)
  {
    if c.start != 0 {
      var cs := Fat.GetChain(f, c.start).value;
      assert Delete(f, c) == ClusterChain.WithChain(ClusterChain.FreeAll(f, cs), c.(start := 0));
    }
  }

  /** The chain reads back zeros from byte `from` to its end: what a later
      `readData(from, buffer)` returns into a buffer of that many bytes. */
  ghost predicate ZeroTail(f: Fat.Fat, dev: Device.Device, c: ClusterChain.Chain, from: nat)
    requires c.clusterSize > 0
  {
    var n := ClusterChain.LengthOnDisk(f, c);
    n.Ok? && n.value > from ==>
      forall b2: ByteBuffer.Buffer {:trigger ClusterChain.ReadData(f, dev, c, from, b2)} | b2.pos == 0 && b2.Capacity() == n.value - from ::
        && ClusterChain.ReadData(f, dev, c, from, b2).Ok?
        && ClusterChain.ReadData(f, dev, c, from, b2).value.buf[..n.value - from] == Zeros(n.value - from)
  }

  /** The chain reads back the window of `b` from byte 0: what
      `readData` into a buffer with the same position and capacity
      returns. */
  ghost predicate HoldsWindow(f: Fat.Fat, dev: Device.Device, c: ClusterChain.Chain, b: ByteBuffer.Buffer)
    requires c.clusterSize > 0 && 0 <= b.pos <= b.Capacity()
  {
    forall b2: ByteBuffer.Buffer {:trigger ClusterChain.ReadData(f, dev, c, 0, b2)} | b2.pos == b.pos && b2.Capacity() == b.Capacity() ::
      && ClusterChain.ReadData(f, dev, c, 0, b2).Ok?
      && ClusterChain.ReadData(f, dev, c, 0, b2).value.buf[b.pos..] == b.buf[b.pos..]
  }

  /** `write(data)`: the buffer's `remaining()` bytes go to the chain from
      byte 0, growing the chain if need be; when the chain then holds more
      bytes than were written, the rest is overwritten by a second write
      of a zero-filled buffer.  A chain that already holds the bytes is
      not resized. */
  method Write(f: Fat.Fat, dev: Device.Device, c: ClusterChain.Chain, b: ByteBuffer.Buffer)
    returns (r: Partial<(Fat.Fat, ClusterChain.Chain, Device.Device), ()>)
    requires f.Valid() && c.clusterSize > 0 && 0 <= b.pos <= b.Capacity()
    ensures r.state.0.Valid() && r.state.1 == c.(start := r.state.1.start) && |r.state.2.data| == |dev.data|
    ensures var toWrite := b.Capacity() - b.pos;
            ClusterChain.LengthOnDisk(f, c).Ok? && toWrite <= ClusterChain.LengthOnDisk(f, c).value ==>
              r.state.0 == f && r.state.1 == c
    ensures r.Done? ==> WrittenBack(r.state.0, r.state.2, r.state.1, b)
  {
    var toWrite := b.Capacity() - b.pos;
    var w := WriteTable(f, dev, c, b);
    if w.Aborted? {
      return Aborted(w.state, w.fault);
    }
    r := Finish(w.state.0, w.state.2, w.state.1, b);
  }

  /** What the chain reads back after `write(data)`: the window of the
      buffer from byte 0 when the chain holds no more than it, and zeros
      from its end to the end of the chain. */
  ghost predicate WrittenBack(f: Fat.Fat, dev: Device.Device, c: ClusterChain.Chain, b: ByteBuffer.Buffer)
    requires c.clusterSize > 0 && 0 <= b.pos <= b.Capacity()
  {
    var toWrite := b.Capacity() - b.pos;
    && (0 < toWrite && ClusterChain.LengthOnDisk(f, c).Ok? && ClusterChain.LengthOnDisk(f, c).value <= toWrite ==>
          HoldsWindow(f, dev, c, b))
    && ZeroTail(f, dev, c, toWrite)
  }

  /** The rest of `write(data)` once the window of `b` is written: the
      chain's length on disk, and the zero fill when it is larger. */
  method Finish(g: Fat.Fat, d: Device.Device, e: ClusterChain.Chain, b: ByteBuffer.Buffer)
    returns (r: Partial<(Fat.Fat, ClusterChain.Chain, Device.Device), ()>)
    requires g.Valid() && e.clusterSize > 0 && 0 <= b.pos <= b.Capacity()
    requires b.pos < b.Capacity() ==> HoldsWindow(g, d, e, b)
    ensures r.state.0 == g && r.state.1 == e && |r.state.2.data| == |d.data|
    ensures r.Done? ==> WrittenBack(g, r.state.2, e, b)
  {
    var toWrite := b.Capacity() - b.pos;
    var trueSize := ClusterChain.LengthOnDisk(g, e);
    if trueSize.Err? {
      return Aborted((g, e, d), trueSize.fault);
    }
    if trueSize.value > toWrite {
      r := FillTail(g, d, e, b, trueSize.value);
    } else {
      r := Done((g, e, d), ());
      BackFromWindow(g, d, e, b);
    }
  }

  /** The zero fill of `write(data)` for a chain longer than the window. */
  method FillTail(g: Fat.Fat, d: Device.Device, e: ClusterChain.Chain, b: ByteBuffer.Buffer, trueSize: int)
    returns (r: Partial<(Fat.Fat, ClusterChain.Chain, Device.Device), ()>)
    requires g.Valid() && e.clusterSize > 0 && 0 <= b.pos <= b.Capacity()
    requires ClusterChain.LengthOnDisk(g, e) == Ok(trueSize) && trueSize > b.Capacity() - b.pos
    ensures r.state.0 == g && r.state.1 == e && |r.state.2.data| == |d.data|
    ensures r.Done? ==> WrittenBack(g, r.state.2, e, b)
  {
    r := Fill(g, d, e, b.Capacity() - b.pos, trueSize);
  }

  /** A chain no longer than the window reads it back when it holds it. */
  lemma BackFromWindow(f: Fat.Fat, dev: Device.Device, c: ClusterChain.Chain, b: ByteBuffer.Buffer)
    requires c.clusterSize > 0 && 0 <= b.pos <= b.Capacity()
    requires ClusterChain.LengthOnDisk(f, c).Ok? && ClusterChain.LengthOnDisk(f, c).value <= b.Capacity() - b.pos
    requires b.pos < b.Capacity() ==> HoldsWindow(f, dev, c, b)
    ensures WrittenBack(f, dev, c, b)
  {
  }

  /** The first write of `write(data)`: `writeData(0, data)`. */
  method WriteTable(f: Fat.Fat, dev: Device.Device, c: ClusterChain.Chain, b: ByteBuffer.Buffer)
    returns (r: Partial<(Fat.Fat, ClusterChain.Chain, Device.Device), ByteBuffer.Buffer>)
    requires f.Valid() && c.clusterSize > 0 && 0 <= b.pos <= b.Capacity()
    ensures r.state.0.Valid() && r.state.1 == c.(start := r.state.1.start) && |r.state.2.data| == |dev.data|
    ensures ClusterChain.LengthOnDisk(f, c).Ok? && b.Capacity() - b.pos <= ClusterChain.LengthOnDisk(f, c).value ==>
              r.state.0 == f && r.state.1 == c
    ensures r.Done? && b.pos < b.Capacity() ==> HoldsWindow(r.state.0, r.state.2, r.state.1, b)
  {
    r := ClusterChain.WriteData(f, dev, c, 0, b);
  }

  /** The second write of `write(data)`: zeros from byte `toWrite` to the
      end of the chain, which already holds that many bytes and so is not
      resized. */
  method Fill(g: Fat.Fat, d: Device.Device, e: ClusterChain.Chain, toWrite: nat, trueSize: int)
    returns (r: Partial<(Fat.Fat, ClusterChain.Chain, Device.Device), ()>)
    requires g.Valid() && e.clusterSize > 0
    requires ClusterChain.LengthOnDisk(g, e) == Ok(trueSize) && trueSize > toWrite
    ensures r.state.0 == g && r.state.1 == e && |r.state.2.data| == |d.data|
    ensures r.Done? ==> ZeroTail(g, r.state.2, e, toWrite)
  {
    var rest := trueSize - toWrite;
    var fill := ByteBuffer.Allocate(rest);
    var z := ClusterChain.WriteData(g, d, e, toWrite, fill);
    if z.Aborted? {
      return Aborted(z.state, z.fault);
    }
    ReadsZeros(g, z.state.2, e, toWrite, fill);
    r := Done(z.state, ());
  }

  /** A chain that reads back a zero-filled buffer from `from` holds
      zeros there. */
  lemma ReadsZeros(g: Fat.Fat, d: Device.Device, e: ClusterChain.Chain, from: nat, fill: ByteBuffer.Buffer)
    requires e.clusterSize > 0 && fill.pos == 0 && 0 < fill.Capacity()
    requires forall i :: 0 <= i < fill.Capacity() ==> fill.buf[i] == 0
    requires forall b2: ByteBuffer.Buffer | b2.pos == 0 && b2.Capacity() == fill.Capacity() ::
               && ClusterChain.ReadData(g, d, e, from, b2).Ok?
               && ClusterChain.ReadData(g, d, e, from, b2).value.buf[0..] == fill.buf[0..]
    ensures forall b2: ByteBuffer.Buffer | b2.pos == 0 && b2.Capacity() == fill.Capacity() ::
              && ClusterChain.ReadData(g, d, e, from, b2).Ok?
              && ClusterChain.ReadData(g, d, e, from, b2).value.buf[..fill.Capacity()] == Zeros(fill.Capacity())
  {
    var rest := fill.Capacity();
    forall b2: ByteBuffer.Buffer | b2.pos == 0 && b2.Capacity() == rest
      ensures && ClusterChain.ReadData(g, d, e, from, b2).Ok?
              && ClusterChain.ReadData(g, d, e, from, b2).value.buf[..rest] == Zeros(rest)
    {
      var v := ClusterChain.ReadData(g, d, e, from, b2).value.buf;
      assert v[0..] == fill.buf[0..];
      assert v[..rest] == Zeros(rest);
    }
  }

  // Flushing and creating a subdirectory.

  /** A buffer of `size` bytes read from the chain's byte 0 starts with
      `image`: what `readData(0, buffer)` returns. */
  ghost predicate HoldsImage(f: Fat.Fat, dev: Device.Device, c: ClusterChain.Chain, size: nat, image: seq<Byte>)
    requires c.clusterSize > 0 && |image| <= size
  {
    forall b2: ByteBuffer.Buffer {:trigger ClusterChain.ReadData(f, dev, c, 0, b2)} | b2.pos == 0 && b2.Capacity() == size ::
      && ClusterChain.ReadData(f, dev, c, 0, b2).Ok?
      && ClusterChain.ReadData(f, dev, c, 0, b2).value.buf[..|image|] == image
  }

  /** What the chain reads back after a flush handed it `size` bytes
      starting with `image`: the image, when the chain holds no more than
      the bytes handed over, and zeros after them to its end. */
  ghost predicate Flushed(f: Fat.Fat, dev: Device.Device, c: ClusterChain.Chain, size: nat, image: seq<Byte>)
    requires c.clusterSize > 0 && |image| <= size
  {
    && (0 < size && ClusterChain.LengthOnDisk(f, c).Ok? && ClusterChain.LengthOnDisk(f, c).value <= size ==>
          HoldsImage(f, dev, c, size, image))
    && ZeroTail(f, dev, c, size)
  }

  /** A chain written with a flipped buffer holds the bytes up to the
      buffer's limit. */
  lemma WrittenImage(f: Fat.Fat, dev: Device.Device, c: ClusterChain.Chain, b: ByteBuffer.Buffer)
    requires c.clusterSize > 0 && b.pos == 0 && 0 <= b.lim <= b.Capacity()
    requires WrittenBack(f, dev, c, b)
    ensures Flushed(f, dev, c, b.Capacity(), b.buf[..b.lim])
  {
    if 0 < b.Capacity() && ClusterChain.LengthOnDisk(f, c).Ok? && ClusterChain.LengthOnDisk(f, c).value <= b.Capacity() {
      forall b2: ByteBuffer.Buffer | b2.pos == 0 && b2.Capacity() == b.Capacity()
        ensures && ClusterChain.ReadData(f, dev, c, 0, b2).Ok?
                && ClusterChain.ReadData(f, dev, c, 0, b2).value.buf[..b.lim] == b.buf[..b.lim]
      {
        var v := ClusterChain.ReadData(f, dev, c, 0, b2).value.buf;
        assert v[0..] == b.buf[0..];
        assert v[..b.lim] == v[0..][..b.lim];
      }
    }
  }

  /** `flush()` of a directory kept in a chain: the buffer of
      `AbstractDirectory::flush`, handed to `write`.  A list longer than
      the capacity overruns the buffer before anything is written.  The
      chain is resized only when it holds fewer bytes than the buffer. */
  method Flush(d: Directory.Dir, s: Directory.Store, f: Fat.Fat, dev: Device.Device)
    returns (r: Partial<(Directory.Store, Directory.Dir, Fat.Fat, Device.Device), ()>)
    requires Directory.Flushable(d, s) && d.backend.ChainStore? && f.Valid() && d.backend.chain.clusterSize > 0
    ensures |d.entries| > d.capacity ==> r.Aborted? && r.fault == BufferOverrun && r.state.1 == d && r.state.2 == f && r.state.3 == dev
    ensures r.Done? ==> r.state.0 == Directory.Cleaned(s, d.entries)
    ensures && r.state.2.Valid() && |r.state.3.data| == |dev.data| && r.state.1.backend.ChainStore?
            && r.state.1 == d.(backend := Directory.ChainStore(d.backend.chain.(start := r.state.1.backend.chain.start)))
    ensures var size := DirEntry.SIZE * (d.capacity + Directory.Size(d) - |d.entries|);
            ClusterChain.LengthOnDisk(f, d.backend.chain).Ok? && size <= ClusterChain.LengthOnDisk(f, d.backend.chain).value ==>
              r.state.1 == d && r.state.2 == f
    ensures r.Done? ==> Flushed(r.state.2, r.state.3, r.state.1.backend.chain, DirEntry.SIZE * (d.capacity + Directory.Size(d) - |d.entries|),
                                Directory.Image(d, s, |d.entries| < d.capacity))
  {
    var fb := Directory.FlushBuffer(d, s);
    if fb.Aborted? {
      return Aborted((fb.state, d, f, dev), fb.fault);
    }
    var b := fb.value;
    var w := Write(f, dev, d.backend.chain, b);
    var d1 := d.(backend := Directory.ChainStore(w.state.1));
    if w.Aborted? {
      return Aborted((fb.state, d1, w.state.0, w.state.2), w.fault);
    }
    WrittenImage(w.state.0, w.state.2, w.state.1, b);
    r := Done((fb.state, d1, w.state.0, w.state.2), ());
  }

  /** `FatDirectoryEntry::create(true)` named `sn` and starting at
      `cluster`: the "." and ".." entries of a new directory. */
  function DotEntry(sn: ShortName.ShortName, cluster: int): (r: Result<DirEntry.Entry>)
    requires sn.nameBytes[0] != 0 as char && sn.nameBytes[0] as int != ShortName.KANJI_ESCAPE
    ensures r.Ok? <==> cluster <= INT_MAX && 0 <= Int32(cluster) < 0x1_0000
    ensures r.Ok? ==> && DirEntry.IsDirectory(r.value) && DirEntry.GetShortName(r.value) == Ok(sn)
                      && DirEntry.GetStartCluster(r.value) == Int32(cluster) && DirEntry.GetLength(r.value) == 0
  {
    var named := DirEntry.SetShortName(DirEntry.Create(true), sn);
    DirEntry.ShortNameRoundTrip(DirEntry.Create(true), sn);
    var r := DirEntry.SetStartCluster(named, cluster);
    if r.Ok? then
      SameNameAndFlags(named, r.value);
      r
    else r
  }

  /** Changing the start-cluster bytes keeps the name, the attributes and
      the length. */
  lemma SameNameAndFlags(a: DirEntry.Entry, b: DirEntry.Entry)
    requires forall i :: 0 <= i < DirEntry.SIZE && !(DirEntry.OFFSET_START_CLUSTER <= i < DirEntry.OFFSET_START_CLUSTER + 2) ==>
               b.data[i] == a.data[i]
    ensures DirEntry.GetShortName(b) == DirEntry.GetShortName(a)
    ensures DirEntry.Flags(b) == DirEntry.Flags(a) && DirEntry.GetLength(b) == DirEntry.GetLength(a)
  {
    assert b.data[..11] == a.data[..11];
    assert b.data[28..32] == a.data[28..32];
  }

  /** `setChainLength(1)` on an empty chain takes one free data cluster
      and ends the chain there: the chain then holds one cluster's bytes. */
  lemma OneCluster(f: Fat.Fat, c: ClusterChain.Chain)
    requires f.Valid() && c.start == 0 && c.clusterSize > 0
    requires ClusterChain.SetChainLength(f, c, 1).Done?
    ensures var (g, e) := ClusterChain.SetChainLength(f, c, 1).state;
            && Fat.FIRST_CLUSTER <= e.start < f.lastClusterIndex && f.entries[e.start] == 0
            && g.entries == f.entries[e.start := FatType.EofMarker(f.kind)]
            && ClusterChain.LengthOnDisk(g, e) == Ok(c.clusterSize)
  {
    var a := Fat.AllocNewN(f, 1);
    var (g, e) := ClusterChain.SetChainLength(f, c, 1).state;
    assert g == a.state && e.start == a.value[0];
    FatType.EofMarkerIsEof(f.kind);
    assert Fat.GetChain(g, e.start) == Ok([e.start]);
  }

  /** A buffer that starts with `image` starts with each prefix of it. */
  lemma HoldsPrefix(f: Fat.Fat, dev: Device.Device, c: ClusterChain.Chain, size: nat, image: seq<Byte>, n: nat)
    requires c.clusterSize > 0 && |image| <= size && n <= |image|
    requires HoldsImage(f, dev, c, size, image)
    ensures HoldsImage(f, dev, c, size, image[..n])
  {
    forall b2: ByteBuffer.Buffer | b2.pos == 0 && b2.Capacity() == size
      ensures && ClusterChain.ReadData(f, dev, c, 0, b2).Ok?
              && ClusterChain.ReadData(f, dev, c, 0, b2).value.buf[..n] == image[..n]
    {
      var v := ClusterChain.ReadData(f, dev, c, 0, b2).value.buf;
      assert v[..n] == v[..|image|][..n];
    }
  }

  /** `addEntry(e)` on a chain directory of at most one entry and no
      label, whose table has at most twice the cluster's bytes and two
      slots more: the bounds `createSub` keeps. */
  method Add(d: Directory.Dir, f: Fat.Fat, id: Directory.Id) returns (r: Partial<(Directory.Dir, Fat.Fat), ()>)
    requires f.Valid() && d.backend.ChainStore? && d.volumeLabel == [] && |d.entries| <= 1 && |d.entries| <= d.capacity
    requires 0 < d.backend.chain.clusterSize <= 0x100_0000
    requires 0 <= d.capacity && DirEntry.SIZE * d.capacity <= 2 * d.backend.chain.clusterSize + 2 * DirEntry.SIZE
    ensures r.state.1.Valid() && r.state.0.backend.ChainStore?
    ensures r.state.0.backend.chain.clusterSize == d.backend.chain.clusterSize
    ensures r.state.0 == d.(entries := r.state.0.entries, capacity := r.state.0.capacity, backend := r.state.0.backend)
    ensures r.Done? ==> && r.state.0.entries == d.entries + [id] && |d.entries| < r.state.0.capacity
                        && DirEntry.SIZE * r.state.0.capacity <= 2 * d.backend.chain.clusterSize + 2 * DirEntry.SIZE
    ensures |d.entries| != d.capacity ==> r == Done((d.(entries := d.entries + [id]), f), ())
  {
    r := Directory.AddEntry(d, f, id);
  }

  /** The entries "." and ".." of a new directory, added in that order
      with `addEntry` to a store of their own. */
  method SubDir(dir: Directory.Dir, f: Fat.Fat, dot: DirEntry.Entry, dotDot: DirEntry.Entry)
    returns (r: Partial<(Directory.Store, Directory.Dir, Fat.Fat), ()>)
    requires f.Valid() && dir.entries == [] && dir.volumeLabel == [] && dir.backend.ChainStore?
    requires 0 < dir.backend.chain.clusterSize <= 0x100_0000
    requires 0 <= dir.capacity && DirEntry.SIZE * dir.capacity <= dir.backend.chain.clusterSize
    ensures r.state.2.Valid() && r.state.1.backend.ChainStore?
    ensures r.state.1.backend.chain.clusterSize == dir.backend.chain.clusterSize
    ensures r.Done? ==> && r.state.1.entries == [0, 1] && r.state.1.volumeLabel == [] && 2 <= r.state.1.capacity
                        && Directory.Flushable(r.state.1, r.state.0)
                        && r.state.0.cells == map[0 := dot, 1 := dotDot]
    ensures 2 <= dir.capacity ==> r.Done? && r.state.1 == dir.(entries := [0, 1]) && r.state.2 == f
  {
    var (s1, i0) := Directory.Alloc(Directory.Store(map[], 0), dot);
    var a1 := Add(dir, f, i0);
    if a1.Aborted? {
      return Aborted((s1, a1.state.0, a1.state.1), a1.fault);
    }
    var (s2, i1) := Directory.Alloc(s1, dotDot);
    var a2 := Add(a1.state.0, a1.state.1, i1);
    if a2.Aborted? {
      return Aborted((s2, a2.state.0, a2.state.1), a2.fault);
    }
    r := Done((s2, a2.state.0, a2.state.1), ());
  }

  /** "." for the directory at `cluster` and ".." for its parent at
      `parentCluster`; either fails as `setStartCluster` does. */
  method Dots(cluster: int, parentCluster: int) returns (r: Result<(DirEntry.Entry, DirEntry.Entry)>)
    ensures r.Ok? <==> DotEntry(ShortName.Dot(), cluster).Ok? && DotEntry(ShortName.DotDot(), parentCluster).Ok?
    ensures r.Ok? ==> r.value == (DotEntry(ShortName.Dot(), cluster).value, DotEntry(ShortName.DotDot(), parentCluster).value)
  {
    var dot := DotEntry(ShortName.Dot(), cluster);
    var dotDot := DotEntry(ShortName.DotDot(), parentCluster);
    if dot.Err? {
      return Err(dot.fault);
    }
    if dotDot.Err? {
      return Err(dotDot.fault);
    }
    r := Ok((dot.value, dotDot.value));
  }

  /** `std::make_shared<ClusterChain>(fat, false)` and
      `setChainLength(1)`: a chain of one new cluster. */
  method NewChain(f: Fat.Fat, clusterSize: int, dataOffset: int) returns (r: Partial<(Fat.Fat, ClusterChain.Chain), ()>)
    requires f.Valid() && clusterSize > 0
    ensures r.state.0.Valid() && r.state.1 == ClusterChain.Chain(r.state.1.start, clusterSize, dataOffset)
    ensures r.Done? ==> && Fat.FIRST_CLUSTER <= r.state.1.start < f.lastClusterIndex && f.entries[r.state.1.start] == 0
                        && r.state.0.entries == f.entries[r.state.1.start := FatType.EofMarker(f.kind)]
                        && ClusterChain.LengthOnDisk(r.state.0, r.state.1) == Ok(clusterSize)
  {
    var c0 := ClusterChain.Chain(0, clusterSize, dataOffset);
    r := ClusterChain.SetChainLength(f, c0, 1);
    if r.Done? {
      OneCluster(f, c0);
    }
  }

  /** A flushed directory holding "." and ".." only starts with their
      two records. */
  lemma TwoRecordsHeld(f: Fat.Fat, dev: Device.Device, d: Directory.Dir, s: Directory.Store)
    requires Directory.Flushable(d, s) && d.entries == [0, 1] && 0 in s.cells && 1 in s.cells
    requires d.volumeLabel == [] && 2 <= d.capacity
    requires d.backend.ChainStore? && d.backend.chain.clusterSize > 0
    requires var n := ClusterChain.LengthOnDisk(f, d.backend.chain); n.Ok? && n.value <= DirEntry.SIZE * d.capacity
    requires Flushed(f, dev, d.backend.chain, DirEntry.SIZE * (d.capacity + Directory.Size(d) - |d.entries|),
                     Directory.Image(d, s, |d.entries| < d.capacity))
    ensures HoldsImage(f, dev, d.backend.chain, DirEntry.SIZE * d.capacity, s.cells[0].data + s.cells[1].data)
  {
    var image := Directory.Image(d, s, |d.entries| < d.capacity);
    assert image[..2 * DirEntry.SIZE] == s.cells[0].data + s.cells[1].data by {
      assert Directory.RecordsOf(s, d.entries) == s.cells[0].data + (s.cells[1].data + []);
    }
    HoldsPrefix(f, dev, d.backend.chain, DirEntry.SIZE * d.capacity, image, 2 * DirEntry.SIZE);
  }

  /** The body of `createSub` once the new directory's cluster is
      allocated: "." and ".." written into it and flushed. When the
      cluster holds both records exactly, the table is left alone and
      the cluster starts with the two records. */
  method Populate(f: Fat.Fat, c: ClusterChain.Chain, dev: Device.Device, dot: DirEntry.Entry, dotDot: DirEntry.Entry)
    returns (r: Partial<(Fat.Fat, Device.Device), ()>)
    requires f.Valid() && 0 < c.clusterSize <= 0x100_0000 && ClusterChain.LengthOnDisk(f, c) == Ok(c.clusterSize)
    ensures r.state.0.Valid() && |r.state.1.data| == |dev.data|
    ensures r.Done? && 2 * DirEntry.SIZE <= c.clusterSize && c.clusterSize % DirEntry.SIZE == 0 ==>
              r.state.0 == f && HoldsImage(r.state.0, r.state.1, c, c.clusterSize, dot.data + dotDot.data)
  {
    var dir := New(f, c, false, false).value;
    var sub := SubDir(dir, f, dot, dotDot);
    if sub.Aborted? {
      return Aborted((sub.state.2, dev), sub.fault);
    }
    var (s2, d2, f2) := sub.state;
    var fl := Flush(d2, s2, f2, dev);
    if fl.Aborted? {
      return Aborted((fl.state.2, fl.state.3), fl.fault);
    }
    if 2 * DirEntry.SIZE <= c.clusterSize && c.clusterSize % DirEntry.SIZE == 0 {
      TwoRecordsHeld(fl.state.2, fl.state.3, d2, s2);
    }
    r := Done((fl.state.2, fl.state.3), ());
  }

  /** `createSub(fat)`: a new chain of one cluster, an entry for it that is
      not added anywhere, and the new directory's table, holding "." and
      "..", flushed into the chain.  A failure midway leaves the cluster
      allocated. */
  method CreateSub(parent: Directory.Dir, f: Fat.Fat, dev: Device.Device, clusterSize: int, dataOffset: int)
    returns (r: Partial<(Fat.Fat, Device.Device), DirEntry.Entry>)
    requires f.Valid() && 0 < clusterSize <= 0x100_0000
    ensures r.state.0.Valid() && |r.state.1.data| == |dev.data|
    ensures r.Done? ==> && DirEntry.IsDirectory(r.value) && DirEntry.GetLength(r.value) == 0
                        && var k := DirEntry.GetStartCluster(r.value);
                           Fat.FIRST_CLUSTER <= k < f.lastClusterIndex && f.entries[k] == 0
    ensures r.Done? && 2 * DirEntry.SIZE <= clusterSize && clusterSize % DirEntry.SIZE == 0 ==>
              var k := DirEntry.GetStartCluster(r.value);
              var c := ClusterChain.Chain(k, clusterSize, dataOffset);
              && r.state.0.entries == f.entries[k := FatType.EofMarker(f.kind)]
              && ClusterChain.LengthOnDisk(r.state.0, c) == Ok(clusterSize)
              && DotEntry(ShortName.Dot(), k).Ok? && DotEntry(ShortName.DotDot(), Directory.StorageCluster(parent)).Ok?
              && HoldsImage(r.state.0, r.state.1, c, clusterSize,
                            DotEntry(ShortName.Dot(), k).value.data + DotEntry(ShortName.DotDot(), Directory.StorageCluster(parent)).value.data)
  {
    var sized := NewChain(f, clusterSize, dataOffset);
    if sized.Aborted? {
      return Aborted((sized.state.0, dev), sized.fault);
    }
    var (f1, c1) := sized.state;
    var entry := DirEntry.SetStartCluster(DirEntry.Create(true), c1.start);
    if entry.Err? {
      return Aborted((f1, dev), entry.fault);
    }
    SameNameAndFlags(DirEntry.Create(true), entry.value);
    var dots := Dots(c1.start, Directory.StorageCluster(parent));
    if dots.Err? {
      return Aborted((f1, dev), dots.fault);
    }
    var fl := Populate(f1, c1, dev, dots.value.0, dots.value.1);
    if fl.Aborted? {
      return Aborted(fl.state, fl.fault);
    }
    r := Done(fl.state, entry.value);
  }
}
