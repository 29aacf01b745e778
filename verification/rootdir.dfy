/** The FAT16 root directory: a fixed table of `rootDirEntryCount` slots
    at the boot sector's root-directory offset.  It never grows; a change
    of size beyond the table is "directory full". */
module RootDirectory {
  import opened Wrappers
  import opened Bytes
  import ByteBuffer
  import Device
  import BootSector
  import Directory
  import DirEntry

  /** The constructor: the table size is the boot sector's root entry
      count, which must be positive, and the table sits at the root
      directory offset. */
  function New(bs: BootSector.BootSector, readOnly: bool): (r: Result<Directory.Dir>)
    requires BootSector.NrFats(bs) >= 0
    ensures r.Ok? <==> BootSector.RootDirEntryCount(bs) > 0
    ensures r.Err? ==> r.fault == InvalidGeometry
    ensures r.Ok? ==> && r.value.entries == [] && r.value.volumeLabel == []
                      && r.value.isRoot && r.value.readOnly == readOnly
                      && r.value.capacity == BootSector.RootDirEntryCount(bs)
                      && r.value.backend == Directory.RootRegion(BootSector.RootDirOffset(bs))
                      && Directory.Valid(r.value)
  {
    NewAt(BootSector.RootDirOffset(bs), BootSector.RootDirEntryCount(bs), readOnly)
  }

  /** The constructor on the two numbers it takes from the boot sector. */
  function NewAt(offset: nat, count: int, readOnly: bool): (r: Result<Directory.Dir>)
    ensures r.Ok? <==> count > 0
    ensures r.Err? ==> r.fault == InvalidGeometry
    ensures r.Ok? ==> && r.value.entries == [] && r.value.volumeLabel == []
                      && r.value.isRoot && r.value.readOnly == readOnly
                      && r.value.capacity == count && r.value.backend == Directory.RootRegion(offset)
                      && Directory.Valid(r.value)
  {
    if count <= 0 then Err(InvalidGeometry)
    else Ok(Directory.New(count, readOnly, true, Directory.RootRegion(offset)))
  }

  /** `read(bs, readOnly)`: the table's bytes are read from the device into
      a buffer of `capacity` slots, then listed. */
  function Read(bs: BootSector.BootSector, dev: Device.Device, s: Directory.Store, readOnly: bool): (r: Result<(Directory.Store, Directory.Dir)>)
    requires BootSector.NrFats(bs) >= 0 && s.Valid()
    ensures BootSector.RootDirEntryCount(bs) <= 0 ==> r == Err(InvalidGeometry)
    ensures BootSector.RootDirEntryCount(bs) > 0
            && BootSector.RootDirOffset(bs) + DirEntry.SIZE * BootSector.RootDirEntryCount(bs) > |dev.data| ==>
              r == Err(DevicePastEnd)
    ensures r.Ok? ==> && r.value.1.isRoot && r.value.1.readOnly == readOnly
                      && r.value.1.capacity == BootSector.RootDirEntryCount(bs)
                      && r.value.1.backend == Directory.RootRegion(BootSector.RootDirOffset(bs))
                      && r.value.0.Valid()
    ensures r.Ok? ==> Directory.Holds(r.value.0, r.value.1.entries) && Directory.Valid(r.value.1)
  {
    ReadAt(BootSector.RootDirOffset(bs), BootSector.RootDirEntryCount(bs), dev, s, readOnly)
  }

  /** The read on the root's offset and entry count. */
  function ReadAt(offset: nat, count: int, dev: Device.Device, s: Directory.Store, readOnly: bool): (r: Result<(Directory.Store, Directory.Dir)>)
    requires s.Valid()
    ensures count <= 0 ==> r == Err(InvalidGeometry)
    ensures count > 0 && offset + DirEntry.SIZE * count > |dev.data| ==> r == Err(DevicePastEnd)
    ensures r.Ok? ==> && r.value.1.isRoot && r.value.1.readOnly == readOnly
                      && r.value.1.capacity == count && r.value.1.backend == Directory.RootRegion(offset)
                      && r.value.0.Valid()
    ensures r.Ok? ==> Directory.Holds(r.value.0, r.value.1.entries) && Directory.Valid(r.value.1)
  {
    var d :- NewAt(offset, count, readOnly);
    var b :- Device.Read(dev, d.backend.offset, ByteBuffer.Allocate(DirEntry.SIZE * d.capacity));
    Directory.Load(d, s, ByteBuffer.Flip(b))
  }

  /** `flush()` as written: the whole flush buffer, which holds one slot
      more than the table when there is a label, is written at the root
      offset.  When the label and the entries fill the table, the
      end-of-listing record lands in the slot past the table, which for a
      root built from a boot sector is the start of the files area: the
      first bytes of the first data cluster are zeroed. */
  method Flush(d: Directory.Dir, s: Directory.Store, dev: Device.Device) returns (r: Partial<(Directory.Store, Device.Device), ()>)
    requires Directory.Flushable(d, s) && d.backend.RootRegion?
    ensures r.Aborted? && r.fault == BufferOverrun <==> |d.entries| > d.capacity
    ensures r.Aborted? ==> r.state.1 == dev
    ensures var slots := d.capacity + Directory.Size(d) - |d.entries|;
            r.Done? <==> |d.entries| <= d.capacity && d.backend.offset + DirEntry.SIZE * slots <= |dev.data|
    ensures r.Done? ==> var image := Directory.Image(d, s, |d.entries| < d.capacity);
                        var (t, e) := r.state;
                        var off := d.backend.offset;
                        && t == Directory.Cleaned(s, d.entries) && |e.data| == |dev.data|
                        && e.data[off..off + |image|] == image
                        && e.data[..off] == dev.data[..off] && e.data[off + |image|..] == dev.data[off + |image|..]
  {
    var fb := Directory.FlushBuffer(d, s);
    if fb.Aborted? {
      return Aborted((fb.state, dev), fb.fault);
    }
    var (t, b) := (fb.state, fb.value);
    var w := Device.WriteImage(dev, d.backend.offset, b, b.buf[..b.lim]);
    if w.Err? {
      return Aborted((t, dev), w.fault);
    }
    r := Done((t, w.value), ());
  }

  /** What the flush as written does past the table: when the label and
      the entries fill it, the image is one slot longer than the table and
      the device slot just past the table ends up holding an end-of-listing
      record, zeros where the first data cluster begins. */
  lemma {:induction false} FlushSpills(d: Directory.Dir, s: Directory.Store, e: Device.Device)
    requires Directory.Flushable(d, s) && d.backend.RootRegion?
    requires d.volumeLabel != [] && Directory.Size(d) == d.capacity
    requires var image, off := Directory.Image(d, s, |d.entries| < d.capacity), d.backend.offset;
             off + |image| <= |e.data| && e.data[off..off + |image|] == image
    ensures var spill := d.backend.offset + DirEntry.SIZE * d.capacity;
            spill + DirEntry.SIZE <= |e.data| && e.data[spill..spill + DirEntry.SIZE] == Zeros(DirEntry.SIZE)
  {
    var image, n := Directory.Image(d, s, true), DirEntry.SIZE * d.capacity;
    Directory.ImageEnd(d, s);
    Device.SubSlice(e.data, d.backend.offset, image, n, n + DirEntry.SIZE);
  }

  /** The flush with the label counted among the table's slots: a table
      whose entries and label do not fit is refused, and only the table's
      own bytes are written. */
  method BoundedFlush(d: Directory.Dir, s: Directory.Store, dev: Device.Device) returns (r: Result<(Directory.Store, Device.Device)>)
    requires Directory.Flushable(d, s) && d.backend.RootRegion?
    ensures r.Ok? <==> Directory.Size(d) <= d.capacity && d.backend.offset + DirEntry.SIZE * d.capacity <= |dev.data|
    ensures Directory.Size(d) > d.capacity ==> r == Err(DirectoryFull)
    ensures r.Ok? ==> var image := Directory.Image(d, s, Directory.Size(d) < d.capacity);
                      var (t, e) := r.value;
                      var off := d.backend.offset;
                      && t == Directory.Cleaned(s, d.entries) && |e.data| == |dev.data|
                      && |image| <= DirEntry.SIZE * d.capacity && e.data[off..off + |image|] == image
                      && e.data[..off] == dev.data[..off]
                      && e.data[off + DirEntry.SIZE * d.capacity..] == dev.data[off + DirEntry.SIZE * d.capacity..]
  {
    var fb := Directory.BoundedFlushBuffer(d, s);
    if fb.Err? {
      return Err(fb.fault);
    }
    var (t, b) := fb.value;
    var w := Device.WriteImage(dev, d.backend.offset, b, b.buf[..b.lim]);
    if w.Err? {
      return Err(w.fault);
    }
    var e, m := w.value.data, d.backend.offset + DirEntry.SIZE * d.capacity;
    assert e[m..] == e[d.backend.offset + b.lim..][m - d.backend.offset - b.lim..];
    r := Ok((t, w.value));
  }

  /** `create(bs)`: a new, empty, writable root table, flushed at once: its
      first slot becomes an end-of-listing record. */
  method Create(bs: BootSector.BootSector, dev: Device.Device) returns (r: Result<(Directory.Dir, Device.Device)>)
    requires BootSector.NrFats(bs) >= 0
    ensures var off, count := BootSector.RootDirOffset(bs), BootSector.RootDirEntryCount(bs);
            r.Ok? <==> count > 0 && off + DirEntry.SIZE * count <= |dev.data|
    ensures r.Ok? ==> var off := BootSector.RootDirOffset(bs);
                      && r.value.0.entries == [] && r.value.0.volumeLabel == [] && !r.value.0.readOnly
                      && r.value.0.capacity == BootSector.RootDirEntryCount(bs)
                      && |r.value.1.data| == |dev.data|
                      && r.value.1.data[off..off + DirEntry.SIZE] == Zeros(DirEntry.SIZE)
  {
    var nd := New(bs, false);
    if nd.Err? {
      return Err(nd.fault);
    }
    var d := nd.value;
    var empty := Directory.Store(map[], 0);
    assert Directory.Image(d, empty, true) == Zeros(DirEntry.SIZE) by {
      assert Directory.RecordsOf(empty, []) == [] && Directory.LabelRecord(d) == [];
    }
    var f := BoundedFlush(d, empty, dev);
    if f.Err? {
      return Err(f.fault);
    }
    r := Ok((d, f.value.1));
  }

  /** Reading back a flushed table: when the device holds the image of a
      table that fits, as the bounded flush leaves it, a fresh read of the
      root table lists the flushed entries, as fresh entries with the same
      records, and the label. */
  lemma RoundTrip(bs: BootSector.BootSector, d: Directory.Dir, s: Directory.Store, e: Device.Device,
                  s2: Directory.Store, readOnly: bool)
    requires BootSector.NrFats(bs) >= 0 && s2.Valid()
    requires d.backend == Directory.RootRegion(BootSector.RootDirOffset(bs)) && d.capacity == BootSector.RootDirEntryCount(bs)
    requires d.isRoot && d.capacity > 0
    requires Directory.Flushable(d, s) && Directory.Listable(s, d.entries) && Directory.Size(d) <= d.capacity
    requires forall j :: 0 <= j < |d.volumeLabel| ==> d.volumeLabel[j] != 0 as char
    requires var off, image := d.backend.offset, Directory.Image(d, s, Directory.Size(d) < d.capacity);
             off + DirEntry.SIZE * d.capacity <= |e.data| && e.data[off..off + |image|] == image
    ensures var r := Read(bs, e, s2, readOnly);
            && r.Ok? && r.value.1.volumeLabel == d.volumeLabel
            && |r.value.1.entries| == |d.entries|
            && forall i :: 0 <= i < |d.entries| ==>
                 r.value.1.entries[i] in r.value.0.cells
                 && r.value.0.cells[r.value.1.entries[i]] == Directory.FreshOf(s, d.entries, readOnly)[i]
  {
    RoundTripAt(d, s, e, s2, readOnly);
  }

  /** The round trip on the root's own offset and capacity. */
  lemma RoundTripAt(d: Directory.Dir, s: Directory.Store, e: Device.Device, s2: Directory.Store, readOnly: bool)
    requires s2.Valid() && d.backend.RootRegion? && d.isRoot && d.capacity > 0
    requires Directory.Flushable(d, s) && Directory.Listable(s, d.entries) && Directory.Size(d) <= d.capacity
    requires forall j :: 0 <= j < |d.volumeLabel| ==> d.volumeLabel[j] != 0 as char
    requires var off, image := d.backend.offset, Directory.Image(d, s, Directory.Size(d) < d.capacity);
             off + DirEntry.SIZE * d.capacity <= |e.data| && e.data[off..off + |image|] == image
    ensures var r := ReadAt(d.backend.offset, d.capacity, e, s2, readOnly);
            && r.Ok? && r.value.1.volumeLabel == d.volumeLabel
            && |r.value.1.entries| == |d.entries|
            && forall i :: 0 <= i < |d.entries| ==>
                 r.value.1.entries[i] in r.value.0.cells
                 && r.value.0.cells[r.value.1.entries[i]] == Directory.FreshOf(s, d.entries, readOnly)[i]
  {
    var off := d.backend.offset;
    var image := Directory.Image(d, s, Directory.Size(d) < d.capacity);
    var fb := ReadTable(e, off, d.capacity, image);
    assert ReadAt(off, d.capacity, e, s2, readOnly) == Directory.Load(NewAt(off, d.capacity, readOnly).value, s2, fb);
    Directory.LoadBack(d, s, fb, s2, NewAt(off, d.capacity, readOnly).value);
  }

  /** The table read from a device that holds `image` at `off`, flipped for
      listing. */
  lemma ReadTable(e: Device.Device, off: nat, capacity: nat, image: seq<Byte>) returns (fb: ByteBuffer.Buffer)
    requires off + DirEntry.SIZE * capacity <= |e.data| && |image| <= DirEntry.SIZE * capacity
    requires e.data[off..off + |image|] == image
    ensures Device.Read(e, off, ByteBuffer.Allocate(DirEntry.SIZE * capacity)).Ok?
    ensures fb == ByteBuffer.Flip(Device.Read(e, off, ByteBuffer.Allocate(DirEntry.SIZE * capacity)).value)
    ensures fb.pos == 0 && fb.Capacity() == DirEntry.SIZE * capacity && fb.buf[..|image|] == image
  {
    var a := ByteBuffer.Allocate(DirEntry.SIZE * capacity);
    Device.ReadBytes(e, off, a);
    fb := ByteBuffer.Flip(Device.Read(e, off, a).value);
    forall i | 0 <= i < |image| ensures fb.buf[i] == image[i] {
      assert fb.buf[i] == e.data[off + i] == e.data[off..off + |image|][i];
    }
  }
}
