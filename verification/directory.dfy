/** A directory as a table of 32-byte entries with a capacity, plus the
    volume label a root directory may carry.  The entries are shared
    objects: the long-name layer and open files hold the same entries, so
    here they live in a `Store` and a directory lists their identities.
    The two backends, the fixed root region of a FAT16 volume and a
    cluster chain, differ in how the table may grow. */
module Directory {
  import opened Wrappers
  import opened Bytes
  import ByteBuffer
  import Fat
  import ClusterChain
  import FsObject
  import DirEntry

  /** `ClusterChainDirectory::MAX_SIZE`: 65536 entries of 32 bytes. */
  const MAX_SIZE: int := 2097152

  type Id = nat

  /** The directory-entry objects, by identity. */
  datatype Store = Store(cells: map<Id, DirEntry.Entry>, next: Id)
  {
    /** Every identity in use is below the next one to hand out. */
    predicate Valid()
    {
      forall id :: id in cells ==> id < next
    }
  }

  /** A new object in the store. */
  function Alloc(s: Store, e: DirEntry.Entry): (r: (Store, Id))
    requires s.Valid()
    ensures r.0.Valid() && r.1 !in s.cells && r.0.cells == s.cells[r.1 := e]
  {
    (Store(s.cells[s.next := e], s.next + 1), s.next)
  }

  /** Every listed identity is in the store. */
  predicate Holds(s: Store, ids: seq<Id>)
  {
    forall i :: 0 <= i < |ids| ==> ids[i] in s.cells
  }

  /** `t` is `s` with at most the object `id` changed. */
  predicate Changed(s: Store, t: Store, id: Id)
  {
    id in t.cells && t == s.(cells := s.cells[id := t.cells[id]])
  }

  /** Where the table is kept: at a device offset, or in a cluster chain. */
  datatype Backend = RootRegion(offset: nat) | ChainStore(chain: ClusterChain.Chain)

  datatype Dir = Dir(entries: seq<Id>, readOnly: bool, isRoot: bool, capacity: int,
                     volumeLabel: Str, backend: Backend)

  /** No more entries than slots, and a label that `setLabel` or `read`
      could have stored. */
  predicate Valid(d: Dir)
  {
    |d.entries| <= d.capacity && |d.volumeLabel| <= DirEntry.MAX_LABEL_LENGTH
  }

  /** `getSize()`: the entries, and one slot for a label. */
  function Size(d: Dir): int
  {
    |d.entries| + (if d.volumeLabel == [] then 0 else 1)
  }

  /** A new, empty table: the constructor of `AbstractDirectory`. */
  function New(capacity: int, readOnly: bool, isRoot: bool, backend: Backend): (d: Dir)
    ensures d.entries == [] && d.volumeLabel == [] && Size(d) == 0
    ensures capacity >= 0 ==> Valid(d)
  {
    Dir([], readOnly, isRoot, capacity, [], backend)
  }

  /** `setEntries(newEntries)`: the list is replaced wholesale, unless it
      is longer than the capacity. */
  function SetEntries(d: Dir, ids: seq<Id>): (r: Result<Dir>)
    ensures r.Ok? <==> |ids| <= d.capacity
    ensures r.Err? ==> r.fault == TooManyEntries
    ensures r.Ok? ==> r.value == d.(entries := ids)
    ensures r.Ok? && |d.volumeLabel| <= DirEntry.MAX_LABEL_LENGTH ==> Valid(r.value)
  {
    if |ids| > d.capacity then Err(TooManyEntries) else Ok(d.(entries := ids))
  }

  /** `sizeChanged(newSize)`: the capacity becomes the number of whole
      entries in the new byte size, refused above `INT_MAX`. */
  function SizeChanged(d: Dir, newSize: int): (r: Result<Dir>)
    requires newSize >= 0
    ensures r.Ok? <==> newSize / DirEntry.SIZE <= INT_MAX
    ensures r.Err? ==> r.fault == DirectoryTooLarge
    ensures r.Ok? ==> r.value == d.(capacity := r.value.capacity)
    ensures r.Ok? ==> r.value.capacity * DirEntry.SIZE <= newSize < (r.value.capacity + 1) * DirEntry.SIZE
  {
    var newCount := newSize / DirEntry.SIZE;
    if newCount > INT_MAX then Err(DirectoryTooLarge) else Ok(d.(capacity := newCount))
  }

  /** What `changeSize` needs of its argument: `ClusterChainDirectory`
      asserts a non-negative count and multiplies it by 32 in `int`, and a
      cluster chain needs a cluster size. */
  predicate Resizable(d: Dir, n: int)
  {
    d.backend.ChainStore? ==> 0 <= n && n * DirEntry.SIZE <= INT_MAX && d.backend.chain.clusterSize > 0
  }

  /** `changeSize(entryCount)`.  The root region cannot grow: a count
      above the capacity is refused and nothing changes.  A chain
      directory refuses more than 65536 entries, otherwise resizes its
      chain to hold the count's bytes, but at least one cluster, and takes
      its capacity from the bytes the chain now has. */
  function ChangeSize(d: Dir, f: Fat.Fat, n: int): (r: Partial<(Dir, Fat.Fat), ()>)
    requires f.Valid() && Resizable(d, n)
    ensures r.state.1.Valid() && r.state.0 == d.(capacity := r.state.0.capacity, backend := r.state.0.backend)
    ensures d.backend.RootRegion? ==> r.state == (d, f)
    ensures r.Aborted? ==> r.state.0.capacity == d.capacity
    ensures d.backend.RootRegion? ==> (r.Done? <==> n <= d.capacity)
    ensures d.backend.RootRegion? && r.Aborted? ==> r.fault == DirectoryFull
    ensures d.backend.ChainStore? ==> r.state.0.backend.ChainStore? && r.state.0.backend.chain.clusterSize == d.backend.chain.clusterSize
    ensures d.backend.ChainStore? && n * DirEntry.SIZE > MAX_SIZE ==> r == Aborted((d, f), DirectoryTooLarge)
    ensures d.backend.ChainStore? && r.Done? ==>
              && n <= r.state.0.capacity
              && d.backend.chain.clusterSize < (r.state.0.capacity + 1) * DirEntry.SIZE
              && var cs := d.backend.chain.clusterSize;
                 r.state.0.capacity * DirEntry.SIZE < (if n * DirEntry.SIZE < cs then cs else n * DirEntry.SIZE) + cs
  {
    match d.backend
    case RootRegion(_) =>
      if d.capacity < n then Aborted((d, f), DirectoryFull) else Done((d, f), ())
    case ChainStore(c) =>
      var size := n * DirEntry.SIZE;
      if size > MAX_SIZE then Aborted((d, f), DirectoryTooLarge)
      else
        var want := if size < c.clusterSize then c.clusterSize else size;
        var sized := ClusterChain.SetSize(f, c, want);
        var d1 := d.(backend := ChainStore(sized.state.1));
        ClusterChain.RoundUp(want, c.clusterSize);
        if sized.Aborted? then Aborted((d1, sized.state.0), sized.fault)
        else
          match SizeChanged(d1, sized.value)
          case Err(e) => Aborted((d1, sized.state.0), e)
          case Ok(d2) => Done((d2, sized.state.0), ())
  }

  /** `getStorageCluster()`: 0 for the root region and for a root
      directory kept in a chain, else the chain's first cluster. */
  function StorageCluster(d: Dir): (c: int)
    ensures d.backend.RootRegion? || d.isRoot ==> c == 0
    ensures d.backend.ChainStore? && !d.isRoot ==> c == d.backend.chain.start
  {
    match d.backend
    case RootRegion(_) => 0
    case ChainStore(c) => if d.isRoot then 0 else c.start
  }

  /** `addEntry(e)`: a table whose slots are all used is first grown by
      one, then the entry goes at the end. */
  function AddEntry(d: Dir, f: Fat.Fat, id: Id): (r: Partial<(Dir, Fat.Fat), ()>)
    requires f.Valid() && Resizable(d, d.capacity + 1)
    ensures r.state.1.Valid()
    ensures r.Done? ==> r.state.0.entries == d.entries + [id]
    ensures r.Done? ==> r.state.0 == d.(entries := d.entries + [id], capacity := r.state.0.capacity,
                                        backend := r.state.0.backend)
    ensures r.Aborted? ==> r.state.0 == d.(backend := r.state.0.backend)
    ensures d.backend.ChainStore? ==> r.state.0.backend.ChainStore? && r.state.0.backend.chain.clusterSize == d.backend.chain.clusterSize
    ensures Size(d) != d.capacity ==> r == Done((d.(entries := d.entries + [id]), f), ())
    ensures d.backend.RootRegion? ==> (r.Done? <==> Size(d) != d.capacity)
    ensures r.Done? && Size(d) <= d.capacity && Valid(d) ==> Valid(r.state.0)
  {
    if Size(d) == d.capacity then
      match ChangeSize(d, f, d.capacity + 1)
      case Aborted(st, e) => Aborted(st, e)
      case Done((d1, f1), _) => Done((d1.(entries := d1.entries + [id]), f1), ())
    else Done((d.(entries := d.entries + [id]), f), ())
  }

  /** `std::find`: the index of the first occurrence of `id`, or the
      length when there is none. */
  function Find(ids: seq<Id>, id: Id): (k: nat)
    ensures k <= |ids| && (k < |ids| <==> id in ids)
    ensures k < |ids| ==> ids[k] == id
    ensures id !in ids[..k]
  {
    if ids == [] then 0
    else if ids[0] == id then 0
    else
      assert ids[..1 + Find(ids[1..], id)] == [ids[0]] + ids[1..][..Find(ids[1..], id)];
      1 + Find(ids[1..], id)
  }

  /** The list without its first occurrence of `id`: every other id keeps
      its place and its count. */
  function EraseFirst(ids: seq<Id>, id: Id): (r: seq<Id>)
    ensures multiset(r) == multiset(ids) - multiset{id}
    ensures id !in ids ==> r == ids
  {
    var k := Find(ids, id);
    if k < |ids| then
      assert ids == ids[..k] + [ids[k]] + ids[k + 1..];
      ids[..k] + ids[k + 1..]
    else ids
  }

  /** `removeEntry(entry)`: the first occurrence is erased, and the table
      is then resized to the number of slots in use. */
  function RemoveEntry(d: Dir, f: Fat.Fat, id: Id): (r: Partial<(Dir, Fat.Fat), ()>)
    requires f.Valid() && Resizable(d, Size(d))
    ensures r.state.1.Valid()
    ensures r.state.0.entries == EraseFirst(d.entries, id)
    ensures r.state.0 == d.(entries := r.state.0.entries, capacity := r.state.0.capacity,
                            backend := r.state.0.backend)
    ensures d.backend.RootRegion? ==> (r.Done? <==> Size(d.(entries := EraseFirst(d.entries, id))) <= d.capacity)
    ensures r.Done? && |d.volumeLabel| <= DirEntry.MAX_LABEL_LENGTH && (d.backend.ChainStore? || |d.entries| <= d.capacity) ==>
              Valid(r.state.0)
  {
    var d1 := d.(entries := EraseFirst(d.entries, id));
    ChangeSize(d1, f, Size(d1))
  }

  /** `checkRoot()`. */
  function CheckRoot(d: Dir): (r: Result<()>)
    ensures r.Ok? <==> d.isRoot
    ensures r.Err? ==> r.fault == NotRoot
  {
    if d.isRoot then Ok(()) else Err(NotRoot)
  }

  /** `getLabel()`: only a root directory has one. */
  function GetLabel(d: Dir): (r: Result<Str>)
    ensures r.Ok? <==> d.isRoot
    ensures r.Ok? ==> r.value == d.volumeLabel
  {
    var _ :- CheckRoot(d);
    Ok(d.volumeLabel)
  }

  /** `setLabel(label)`: only on a root directory, and at most eleven
      characters.  The table is not consulted, so a label can be set on a
      root directory whose slots are all in use. */
  function SetLabel(d: Dir, text: Str): (r: Result<Dir>)
    ensures r.Ok? <==> d.isRoot && |text| <= DirEntry.MAX_LABEL_LENGTH
    ensures r.Err? ==> r.fault == (if d.isRoot then LabelTooLong else NotRoot)
    ensures r.Ok? ==> r.value == d.(volumeLabel := text)
    ensures r.Ok? && |d.entries| <= d.capacity ==> Valid(r.value)
  {
    var _ :- CheckRoot(d);
    if |text| > DirEntry.MAX_LABEL_LENGTH then Err(LabelTooLong) else Ok(d.(volumeLabel := text))
  }

  // Serialising the table.

  /** The records of the listed entries, one after another. */
  function RecordsOf(s: Store, ids: seq<Id>): (r: seq<Byte>)
    requires Holds(s, ids)
    ensures |r| == DirEntry.SIZE * |ids|
  {
    if ids == [] then [] else s.cells[ids[0]].data + RecordsOf(s, ids[1..])
  }

  /** The store after writing the listed entries: each becomes clean. */
  function Cleaned(s: Store, ids: seq<Id>): (r: Store)
    ensures r.next == s.next && r.cells.Keys == s.cells.Keys
    ensures forall id :: id in s.cells ==> r.cells[id] == s.cells[id].(dirty := s.cells[id].dirty && id !in ids)
  {
    Store(map id | id in s.cells :: s.cells[id].(dirty := s.cells[id].dirty && id !in ids), s.next)
  }

  /** `entry->write(data)` for each listed entry in turn: the records go
      one after another from the position.  Each write also cleans its
      entry; `Cleaned` states that part. */
  function WriteEntries(s: Store, ids: seq<Id>, b: ByteBuffer.Buffer): (r: ByteBuffer.Buffer)
    requires Holds(s, ids) && 0 <= b.pos && b.pos + DirEntry.SIZE * |ids| <= b.Capacity()
    ensures r.lim == b.lim && r.pos == b.pos + DirEntry.SIZE * |ids|
    ensures r.buf == b.buf[..b.pos] + RecordsOf(s, ids) + b.buf[b.pos + DirEntry.SIZE * |ids|..]
    decreases |ids|
  {
    if ids == [] then b
    else
      var w := DirEntry.Write(s.cells[ids[0]], b).0.state;
      var r := WriteEntries(s, ids[1..], w);
      assert DirEntry.SIZE * |ids| == DirEntry.SIZE + DirEntry.SIZE * |ids[1..]|;
      PutTwice(b.buf, b.pos, s.cells[ids[0]].data, RecordsOf(s, ids[1..]));
      r
  }

  /** Putting `x` at `p`, then `y` right after it, puts `x + y`. */
  lemma PutTwice(a: seq<Byte>, p: nat, x: seq<Byte>, y: seq<Byte>)
    requires p + |x| + |y| <= |a|
    ensures var w := a[..p] + x + a[p + |x|..];
            w[..p + |x|] + y + w[p + |x| + |y|..] == a[..p] + (x + y) + a[p + |x| + |y|..]
  {
    var w := a[..p] + x + a[p + |x|..];
    assert w[..p + |x|] == a[..p] + x;
    assert w[p + |x| + |y|..] == a[p + |x| + |y|..];
  }

  /** Two stores that agree on the records of the listed entries. */
  lemma {:induction false} SameRecords(s: Store, t: Store, ids: seq<Id>)
    requires Holds(s, ids) && Holds(t, ids)
    requires forall i :: 0 <= i < |ids| ==> t.cells[ids[i]].data == s.cells[ids[i]].data
    ensures RecordsOf(t, ids) == RecordsOf(s, ids)
  {
    if ids != [] {
      SameRecords(s, t, ids[1..]);
    }
  }

  /** The label's record, when there is a label. */
  function LabelRecord(d: Dir): (r: seq<Byte>)
    requires |d.volumeLabel| <= DirEntry.MAX_LABEL_LENGTH
    ensures |r| == (if d.volumeLabel == [] then 0 else DirEntry.SIZE)
  {
    if d.volumeLabel == [] then [] else DirEntry.CreateVolumeLabel(d.volumeLabel).data
  }

  /** The bytes a flush produces: the entries' records in order, the
      label's record, and an end-of-listing record when `terminated`. */
  function Image(d: Dir, s: Store, terminated: bool): (r: seq<Byte>)
    requires Holds(s, d.entries) && |d.volumeLabel| <= DirEntry.MAX_LABEL_LENGTH
    ensures |r| == DirEntry.SIZE * (Size(d) + if terminated then 1 else 0)
  {
    RecordsOf(s, d.entries) + LabelRecord(d) + (if terminated then Zeros(DirEntry.SIZE) else [])
  }

  /** A terminated image ends with an end-of-listing record, in the slot
      after the entries and the label. */
  lemma ImageEnd(d: Dir, s: Store)
    requires Holds(s, d.entries) && |d.volumeLabel| <= DirEntry.MAX_LABEL_LENGTH
    ensures Image(d, s, true)[DirEntry.SIZE * Size(d)..] == Zeros(DirEntry.SIZE)
  {
    assert Image(d, s, true) == (RecordsOf(s, d.entries) + LabelRecord(d)) + Zeros(DirEntry.SIZE);
  }

  /** A flush buffer's `int` size stays in range. */
  predicate Flushable(d: Dir, s: Store)
  {
    && Holds(s, d.entries) && |d.volumeLabel| <= DirEntry.MAX_LABEL_LENGTH
    && 0 <= d.capacity && (d.capacity + 1) * DirEntry.SIZE <= INT_MAX
  }

  /** The label record after the entries, when there is a label. */
  function WriteLabel(d: Dir, b: ByteBuffer.Buffer): (r: ByteBuffer.Buffer)
    requires |d.volumeLabel| <= DirEntry.MAX_LABEL_LENGTH
    requires 0 <= b.pos && b.pos + |LabelRecord(d)| <= b.Capacity()
    ensures r.lim == b.lim && r.Capacity() == b.Capacity() && r.pos == b.pos + |LabelRecord(d)|
    ensures r.buf[..r.pos] == b.buf[..b.pos] + LabelRecord(d)
  {
    if d.volumeLabel == [] then b
    else
      var r := DirEntry.Write(DirEntry.CreateVolumeLabel(d.volumeLabel), b).0.state;
      assert r.buf[..r.pos] == b.buf[..b.pos] + LabelRecord(d);
      r
  }

  /** `if (data.hasRemaining()) writeNullEntry(data)`, for a buffer of
      whole slots. */
  function Terminate(b: ByteBuffer.Buffer, used: nat, slots: nat): (r: ByteBuffer.Buffer)
    requires b.pos == DirEntry.SIZE * used && b.Capacity() == DirEntry.SIZE * slots && used <= slots
    ensures r.lim == b.lim && r.Capacity() == b.Capacity()
    ensures r.pos == b.pos + (if used < slots then DirEntry.SIZE else 0)
    ensures r.buf[..r.pos] == b.buf[..b.pos] + (if used < slots then Zeros(DirEntry.SIZE) else [])
  {
    if b.HasRemaining() then
      var r := DirEntry.WriteNullEntry(b);
      assert r.buf[..r.pos] == b.buf[..b.pos] + Zeros(DirEntry.SIZE);
      r
    else b
  }

  /** The entries, the label and, when a slot is left, the end-of-listing
      record, written into an empty buffer of `slots` slots. */
  method Serialise(d: Dir, s: Store, slots: nat) returns (r: ByteBuffer.Buffer)
    requires Holds(s, d.entries) && |d.volumeLabel| <= DirEntry.MAX_LABEL_LENGTH && Size(d) <= slots
    ensures r.pos == |Image(d, s, Size(d) < slots)| && r.Capacity() == DirEntry.SIZE * slots
    ensures r.buf[..r.pos] == Image(d, s, Size(d) < slots)
  {
    var b0 := ByteBuffer.Allocate(slots * DirEntry.SIZE);
    var b1 := WriteEntries(s, d.entries, b0);
    assert b1.buf[..b1.pos] == RecordsOf(s, d.entries);
    var b2 := WriteLabel(d, b1);
    r := Terminate(b2, Size(d), slots);
  }

  /** `flush()` as written, up to the hand-over to the backend.  The buffer
      has a slot per entry of the capacity plus one for the label; a list
      too long for it makes a put throw after the entries that fit have
      been written, and so cleaned.  When a label is set and the label and
      entries fill the capacity, the buffer handed over is one slot longer
      than the table, and that slot is an end-of-listing record. */
  method FlushBuffer(d: Dir, s: Store) returns (r: Partial<Store, ByteBuffer.Buffer>)
    requires Flushable(d, s)
    ensures r.Done? <==> |d.entries| <= d.capacity
    ensures r.Done? ==> r.state == Cleaned(s, d.entries)
    ensures r.Aborted? ==> r.fault == BufferOverrun && r.state == Cleaned(s, d.entries[..Min(|d.entries|, Size(d) - |d.entries| + d.capacity)])
    ensures r.Done? ==> && r.value.pos == 0 && r.value.Capacity() == DirEntry.SIZE * (d.capacity + Size(d) - |d.entries|)
                        && var terminated := |d.entries| < d.capacity;
                           r.value.lim == |Image(d, s, terminated)| && r.value.buf[..r.value.lim] == Image(d, s, terminated)
    ensures r.Done? ==> (r.value.lim > DirEntry.SIZE * d.capacity <==> d.volumeLabel != [] && Size(d) >= d.capacity)
  {
    var slots := d.capacity + (Size(d) - |d.entries|);
    if |d.entries| > d.capacity {
      return Aborted(Cleaned(s, d.entries[..Min(|d.entries|, slots)]), BufferOverrun);
    }
    var sb := Serialise(d, s, slots);
    r := Done(Cleaned(s, d.entries), ByteBuffer.Flip(sb));
  }

  /** The flush the rest of the model uses: the buffer is the capacity's
      slots, the label counts as one of them, and a table that does not
      fit is refused before anything is written. */
  method BoundedFlushBuffer(d: Dir, s: Store) returns (r: Result<(Store, ByteBuffer.Buffer)>)
    requires Flushable(d, s)
    ensures r.Ok? <==> Size(d) <= d.capacity
    ensures r.Err? ==> r.fault == DirectoryFull
    ensures r.Ok? ==> r.value.0 == Cleaned(s, d.entries)
    ensures r.Ok? ==> && r.value.1.pos == 0 && r.value.1.Capacity() == DirEntry.SIZE * d.capacity
                      && r.value.1.lim <= DirEntry.SIZE * d.capacity
                      && var terminated := Size(d) < d.capacity;
                         r.value.1.lim == |Image(d, s, terminated)| && r.value.1.buf[..r.value.1.lim] == Image(d, s, terminated)
  {
    if Size(d) > d.capacity {
      return Err(DirectoryFull);
    }
    var sb := Serialise(d, s, d.capacity);
    r := Ok((Cleaned(s, d.entries), ByteBuffer.Flip(sb)));
  }

  /** Where the flush as written does not overrun, both flushes hand over
      the same image. */
  lemma FlushesAgree(d: Dir, s: Store)
    requires Flushable(d, s) && Size(d) <= d.capacity
    requires d.volumeLabel == [] || Size(d) < d.capacity
    ensures Image(d, s, |d.entries| < d.capacity) == Image(d, s, Size(d) < d.capacity)
  {
  }

  // Reading the table.

  type Listing = (seq<DirEntry.Entry>, Str)

  /** Entries read in front of the rest of a listing. */
  function Prepend(es: seq<DirEntry.Entry>, r: Result<Listing>): (q: Result<Listing>)
    ensures q.Ok? <==> r.Ok?
  {
    match r
    case Ok((xs, text)) => Ok((es + xs, text))
    case Err(e) => Err(e)
  }

  /** A label read in front of the rest of a listing: a later label
      replaces it.  A label record read back is never empty, because its
      first byte is not 0. */
  function WithLabel(text: Str, r: Result<Listing>): (q: Result<Listing>)
    ensures q.Ok? <==> r.Ok?
  {
    match r
    case Ok((xs, later)) => Ok((xs, if later != [] then later else text))
    case Err(e) => Err(e)
  }

  /** The loop of `read()` over `count` slots.  A slot whose first byte is
      0 is skipped without advancing, so every later slot sees the same
      byte and the listing ends there; a label record sets the label in a
      root directory and throws elsewhere; every other record, deleted and
      long-name slots included, is listed in order. */
  function ReadSlots(b: ByteBuffer.Buffer, count: nat, readOnly: bool, isRoot: bool): (r: Result<Listing>)
    requires 0 <= b.pos && b.pos + DirEntry.SIZE * count <= b.Capacity()
    ensures r.Err? ==> r.fault == LabelOutsideRoot && !isRoot
    ensures r.Ok? ==> |r.value.0| <= count && |r.value.1| <= DirEntry.MAX_LABEL_LENGTH
    ensures r.Ok? && !isRoot ==> r.value.1 == []
    decreases count
  {
    if count == 0 then Ok(([], []))
    else
      var (b1, e) := DirEntry.Read(b, readOnly);
      match e
      case None => ReadSlots(b1, count - 1, readOnly, isRoot)
      case Some(x) =>
        if !DirEntry.IsVolumeLabel(x) then Prepend([x], ReadSlots(b1, count - 1, readOnly, isRoot))
        else if !isRoot then Err(LabelOutsideRoot)
        else WithLabel(DirEntry.GetVolumeLabel(x).value, ReadSlots(b1, count - 1, readOnly, isRoot))
  }

  /** What a listing holds: clean entries created with the directory's
      read-only flag, none of them an end-of-listing record or a label. */
  predicate AllFresh(es: seq<DirEntry.Entry>, readOnly: bool)
  {
    forall i :: 0 <= i < |es| ==>
      && es[i].data[0] != 0 && !DirEntry.IsVolumeLabel(es[i])
      && !es[i].dirty && es[i].obj == FsObject.Create(readOnly)
  }

  /** A slot whose first byte is 0 ends the listing: nothing after it is
      read. */
  lemma {:induction false} NullEndsListing(b: ByteBuffer.Buffer, count: nat, readOnly: bool, isRoot: bool)
    requires 0 <= b.pos && b.pos + DirEntry.SIZE * count <= b.Capacity() && (count > 0 ==> b.buf[b.pos] == 0)
    ensures ReadSlots(b, count, readOnly, isRoot) == Ok(([], []))
  {
    if count > 0 {
      NullEndsListing(b, count - 1, readOnly, isRoot);
    }
  }

  /** The `count` records from the buffer's position on, one per slot. */
  function SlotsOf(b: ByteBuffer.Buffer, count: nat): (r: seq<DirEntry.Record>)
    requires 0 <= b.pos && b.pos + DirEntry.SIZE * count <= b.Capacity()
    ensures |r| == count
    ensures forall i :: 0 <= i < count ==> r[i] == b.buf[b.pos + DirEntry.SIZE * i..b.pos + DirEntry.SIZE * i + DirEntry.SIZE]
  {
    seq(count, i requires 0 <= i < count => b.buf[b.pos + DirEntry.SIZE * i..b.pos + DirEntry.SIZE * i + DirEntry.SIZE])
  }

  /** The listing of a run of records, as the loop of `read()` makes it:
      it ends at the first record whose first byte is 0, a label record
      sets the label in a root directory and is refused elsewhere, and
      every other record is listed as a fresh entry. */
  function ListRecords(recs: seq<DirEntry.Record>, readOnly: bool, isRoot: bool): (r: Result<Listing>)
    ensures r.Err? ==> r.fault == LabelOutsideRoot && !isRoot
    ensures r.Ok? ==> |r.value.0| <= |recs|
  {
    if recs == [] || recs[0][0] == 0 then Ok(([], []))
    else
      var x := DirEntry.Entry(recs[0], false, FsObject.Create(readOnly));
      if !DirEntry.IsVolumeLabel(x) then Prepend([x], ListRecords(recs[1..], readOnly, isRoot))
      else if !isRoot then Err(LabelOutsideRoot)
      else WithLabel(DirEntry.GetVolumeLabel(x).value, ListRecords(recs[1..], readOnly, isRoot))
  }

  /** The loop over the slots of a buffer lists the records in them. */
  lemma {:induction false} ReadSlotsRecords(b: ByteBuffer.Buffer, count: nat, readOnly: bool, isRoot: bool)
    requires 0 <= b.pos && b.pos + DirEntry.SIZE * count <= b.Capacity()
    ensures ReadSlots(b, count, readOnly, isRoot) == ListRecords(SlotsOf(b, count), readOnly, isRoot)
    decreases count
  {
    if count > 0 {
      var recs := SlotsOf(b, count);
      assert recs[0] == b.buf[b.pos..b.pos + DirEntry.SIZE];
      if b.buf[b.pos] == 0 {
        NullEndsListing(b, count, readOnly, isRoot);
      } else {
        var b1 := b.(pos := b.pos + DirEntry.SIZE);
        ReadSlotsRecords(b1, count - 1, readOnly, isRoot);
        SlotsOfTail(b, count);
      }
    }
  }

  /** The slots after the first are those of the buffer one slot on. */
  lemma SlotsOfTail(b: ByteBuffer.Buffer, count: nat)
    requires 0 < count && 0 <= b.pos && b.pos + DirEntry.SIZE * count <= b.Capacity()
    ensures SlotsOf(b, count)[1..] == SlotsOf(b.(pos := b.pos + DirEntry.SIZE), count - 1)
  {
    var recs := SlotsOf(b, count);
    var b1 := b.(pos := b.pos + DirEntry.SIZE);
    forall i | 0 <= i < count - 1 ensures recs[1..][i] == SlotsOf(b1, count - 1)[i] {
      assert b1.pos + DirEntry.SIZE * i == b.pos + DirEntry.SIZE * (i + 1);
    }
  }

  /** Every listing of records holds only fresh entries that are neither
      end-of-listing records nor labels. */
  lemma {:induction false} ListRecordsFresh(recs: seq<DirEntry.Record>, readOnly: bool, isRoot: bool)
    ensures var r := ListRecords(recs, readOnly, isRoot);
            r.Ok? ==> AllFresh(r.value.0, readOnly)
  {
    if recs != [] && recs[0][0] != 0 {
      ListRecordsFresh(recs[1..], readOnly, isRoot);
      var x := DirEntry.Entry(recs[0], false, FsObject.Create(readOnly));
      var r1 := ListRecords(recs[1..], readOnly, isRoot);
      if !DirEntry.IsVolumeLabel(x) && r1.Ok? {
        var es := [x] + r1.value.0;
        assert AllFresh(es, readOnly) by {
          forall i | 0 <= i < |es|
            ensures es[i].data[0] != 0 && !DirEntry.IsVolumeLabel(es[i])
            ensures !es[i].dirty && es[i].obj == FsObject.Create(readOnly)
          {
            if i > 0 { assert es[i] == r1.value.0[i - 1]; }
          }
        }
      }
    }
  }

  /** Every listing `read()` produces holds only fresh entries that are
      neither end-of-listing records nor labels. */
  lemma ReadSlotsListable(b: ByteBuffer.Buffer, count: nat, readOnly: bool, isRoot: bool)
    requires 0 <= b.pos && b.pos + DirEntry.SIZE * count <= b.Capacity()
    ensures var r := ReadSlots(b, count, readOnly, isRoot);
            r.Ok? ==> AllFresh(r.value.0, readOnly)
  {
    ReadSlotsRecords(b, count, readOnly, isRoot);
    ListRecordsFresh(SlotsOf(b, count), readOnly, isRoot);
  }

  /** The entries as `read()` creates them from their records. */
  function FreshOf(s: Store, ids: seq<Id>, readOnly: bool): (r: seq<DirEntry.Entry>)
    requires Holds(s, ids)
    ensures |r| == |ids|
  {
    if ids == [] then [] else [DirEntry.Entry(s.cells[ids[0]].data, false, FsObject.Create(readOnly))] + FreshOf(s, ids[1..], readOnly)
  }

  /** Entries that a listing can hold: not an end-of-listing record and not
      a label. */
  predicate Listable(s: Store, ids: seq<Id>)
    requires Holds(s, ids)
  {
    forall i :: 0 <= i < |ids| ==> s.cells[ids[i]].data[0] != 0 && !DirEntry.IsVolumeLabel(s.cells[ids[i]])
  }

  /** Two entries with the same record classify the same way and carry
      the same label. */
  lemma SameRecord(e: DirEntry.Entry, x: DirEntry.Entry)
    requires e.data == x.data
    ensures DirEntry.IsVolumeLabel(e) == DirEntry.IsVolumeLabel(x)
    ensures DirEntry.GetVolumeLabel(e) == DirEntry.GetVolumeLabel(x)
  {
  }

  /** Reading entries in two runs is reading them in one. */
  lemma PrependTwice(xs: seq<DirEntry.Entry>, ys: seq<DirEntry.Entry>, r: Result<Listing>)
    ensures Prepend(xs, Prepend(ys, r)) == Prepend(xs + ys, r)
    ensures Prepend([], r) == r
  {
    match r
    case Ok((zs, text)) =>
      assert xs + (ys + zs) == (xs + ys) + zs;
      assert [] + zs == zs;
    case Err(_) =>
  }

  /** The records of the listed entries, one per slot. */
  function RecordSeq(s: Store, ids: seq<Id>): (r: seq<DirEntry.Record>)
    requires Holds(s, ids)
    ensures |r| == |ids| && forall i :: 0 <= i < |ids| ==> r[i] == s.cells[ids[i]].data
  {
    seq(|ids|, i requires 0 <= i < |ids| => s.cells[ids[i]].data)
  }

  /** Listable records are listed in order, as fresh entries, in front of
      whatever the records after them list. */
  lemma {:induction false} ListEntries(s: Store, ids: seq<Id>, tail: seq<DirEntry.Record>, readOnly: bool, isRoot: bool)
    requires Holds(s, ids) && Listable(s, ids)
    ensures ListRecords(RecordSeq(s, ids) + tail, readOnly, isRoot)
         == Prepend(FreshOf(s, ids, readOnly), ListRecords(tail, readOnly, isRoot))
  {
    var recs := RecordSeq(s, ids) + tail;
    if ids == [] {
      assert recs == tail;
      PrependTwice([], [], ListRecords(tail, readOnly, isRoot));
    } else {
      assert recs[0] == s.cells[ids[0]].data;
      assert recs[1..] == RecordSeq(s, ids[1..]) + tail;
      ListEntries(s, ids[1..], tail, readOnly, isRoot);
      SameRecord(s.cells[ids[0]], DirEntry.Entry(recs[0], false, FsObject.Create(readOnly)));
      PrependTwice([DirEntry.Entry(recs[0], false, FsObject.Create(readOnly))], FreshOf(s, ids[1..], readOnly),
                   ListRecords(tail, readOnly, isRoot));
    }
  }

  /** A label record sets the root's label, unless a later one replaces
      it. */
  lemma ListLabel(text: Str, tail: seq<DirEntry.Record>, readOnly: bool)
    requires 1 <= |text| <= DirEntry.MAX_LABEL_LENGTH && forall j :: 0 <= j < |text| ==> text[j] != 0 as char
    ensures ListRecords([DirEntry.CreateVolumeLabel(text).data] + tail, readOnly, true)
         == WithLabel(text, ListRecords(tail, readOnly, true))
  {
    var e := DirEntry.CreateVolumeLabel(text);
    var recs := [e.data] + tail;
    assert recs[0][0] == ByteOf(text[0]);
    assert recs[1..] == tail;
    SameRecord(e, DirEntry.Entry(recs[0], false, FsObject.Create(readOnly)));
    DirEntry.LabelRoundTrip(text);
    assert text[..Min(|text|, DirEntry.MAX_LABEL_LENGTH)] == text;
  }

  /** The records of a flushed image, slot by slot: the entries' records,
      the label record when there is a label, and an end-of-listing record
      when the image is terminated. */
  function ImageSlots(d: Dir, s: Store, terminated: bool): (r: seq<DirEntry.Record>)
    requires Holds(s, d.entries) && |d.volumeLabel| <= DirEntry.MAX_LABEL_LENGTH
    ensures |r| == Size(d) + if terminated then 1 else 0
  {
    RecordSeq(s, d.entries) + LabelSlots(d) + EndSlots(terminated)
  }

  /** The volume-label record, when there is a label. */
  function LabelSlots(d: Dir): (r: seq<DirEntry.Record>)
    requires |d.volumeLabel| <= DirEntry.MAX_LABEL_LENGTH
    ensures |r| == if d.volumeLabel == [] then 0 else 1
  {
    if d.volumeLabel == [] then [] else [DirEntry.CreateVolumeLabel(d.volumeLabel).data]
  }

  /** The end-of-listing record, when the image is terminated. */
  function EndSlots(terminated: bool): (r: seq<DirEntry.Record>)
    ensures |r| == if terminated then 1 else 0
  {
    if terminated then [Zeros(DirEntry.SIZE)] else []
  }

  /** Nothing or an end-of-listing record lists nothing. */
  lemma ListEnd(more: seq<DirEntry.Record>, terminated: bool, readOnly: bool, isRoot: bool)
    requires terminated || more == []
    ensures ListRecords(EndSlots(terminated) + more, readOnly, isRoot) == Ok(([], []))
  {
    var rest := EndSlots(terminated) + more;
    if terminated {
      assert rest[0] == Zeros(DirEntry.SIZE);
    } else {
      assert rest == [];
    }
  }

  /** After the entries: the label, then nothing or an end-of-listing
      record, lists nothing more. */
  lemma ListTail(d: Dir, more: seq<DirEntry.Record>, terminated: bool, readOnly: bool)
    requires |d.volumeLabel| <= DirEntry.MAX_LABEL_LENGTH && (d.volumeLabel != [] ==> d.isRoot)
    requires forall j :: 0 <= j < |d.volumeLabel| ==> d.volumeLabel[j] != 0 as char
    requires terminated || more == []
    ensures ListRecords(LabelSlots(d) + EndSlots(terminated) + more, readOnly, d.isRoot) == Ok(([], d.volumeLabel))
  {
    var rest := EndSlots(terminated) + more;
    ListEnd(more, terminated, readOnly, d.isRoot);
    if d.volumeLabel != [] {
      ListLabel(d.volumeLabel, rest, readOnly);
      assert LabelSlots(d) + EndSlots(terminated) + more == [DirEntry.CreateVolumeLabel(d.volumeLabel).data] + rest;
    } else {
      assert LabelSlots(d) + EndSlots(terminated) + more == rest;
    }
  }

  /** The slots of a flushed image list its entries, as fresh entries
      with their records, and its label, whatever slots follow an
      end-of-listing record. */
  lemma ListImage(d: Dir, s: Store, terminated: bool, more: seq<DirEntry.Record>, readOnly: bool)
    requires Holds(s, d.entries) && Listable(s, d.entries) && |d.volumeLabel| <= DirEntry.MAX_LABEL_LENGTH
    requires (d.volumeLabel != [] ==> d.isRoot) && forall j :: 0 <= j < |d.volumeLabel| ==> d.volumeLabel[j] != 0 as char
    requires terminated || more == []
    ensures ListRecords(ImageSlots(d, s, terminated) + more, readOnly, d.isRoot) == Ok((FreshOf(s, d.entries, readOnly), d.volumeLabel))
  {
    var tail := LabelSlots(d) + EndSlots(terminated) + more;
    assert ImageSlots(d, s, terminated) + more == RecordSeq(s, d.entries) + tail;
    ListEntries(s, d.entries, tail, readOnly, d.isRoot);
    ListTail(d, more, terminated, readOnly);
    assert FreshOf(s, d.entries, readOnly) + [] == FreshOf(s, d.entries, readOnly);
  }

  /** Bytes that are the given records, one per 32-byte slot. */
  predicate Chunked(bytes: seq<Byte>, recs: seq<DirEntry.Record>)
  {
    && |bytes| == DirEntry.SIZE * |recs|
    && forall i :: 0 <= i < |recs| ==> bytes[DirEntry.SIZE * i..DirEntry.SIZE * i + DirEntry.SIZE] == recs[i]
  }

  /** One record is one slot. */
  lemma ChunkedOne(r: DirEntry.Record)
    ensures Chunked(r, [r])
  {
    assert r[0..DirEntry.SIZE] == r;
  }

  /** Slots put one after another. */
  lemma ChunkedConcat(x: seq<Byte>, xs: seq<DirEntry.Record>, y: seq<Byte>, ys: seq<DirEntry.Record>)
    requires Chunked(x, xs) && Chunked(y, ys)
    ensures Chunked(x + y, xs + ys)
  {
    forall i | 0 <= i < |xs| + |ys|
      ensures (x + y)[DirEntry.SIZE * i..DirEntry.SIZE * i + DirEntry.SIZE] == (xs + ys)[i]
    {
      if i < |xs| {
        assert (x + y)[DirEntry.SIZE * i..DirEntry.SIZE * i + DirEntry.SIZE] == x[DirEntry.SIZE * i..DirEntry.SIZE * i + DirEntry.SIZE];
      } else {
        var j := i - |xs|;
        assert (x + y)[DirEntry.SIZE * i..DirEntry.SIZE * i + DirEntry.SIZE] == y[DirEntry.SIZE * j..DirEntry.SIZE * j + DirEntry.SIZE];
      }
    }
  }

  /** The entries' records, one per slot. */
  lemma {:induction false} RecordsChunked(s: Store, ids: seq<Id>)
    requires Holds(s, ids)
    ensures Chunked(RecordsOf(s, ids), RecordSeq(s, ids))
  {
    if ids != [] {
      var r := s.cells[ids[0]].data;
      RecordsChunked(s, ids[1..]);
      ChunkedOne(r);
      ChunkedConcat(r, [r], RecordsOf(s, ids[1..]), RecordSeq(s, ids[1..]));
      assert RecordSeq(s, ids) == [r] + RecordSeq(s, ids[1..]);
    }
  }

  /** An image is its records, one per slot. */
  lemma ImageChunked(d: Dir, s: Store, terminated: bool)
    requires Holds(s, d.entries) && |d.volumeLabel| <= DirEntry.MAX_LABEL_LENGTH
    ensures Chunked(Image(d, s, terminated), ImageSlots(d, s, terminated))
  {
    var labelSlot := if d.volumeLabel == [] then [] else [DirEntry.CreateVolumeLabel(d.volumeLabel).data];
    var end := if terminated then [Zeros(DirEntry.SIZE)] else [];
    RecordsChunked(s, d.entries);
    if d.volumeLabel != [] {
      ChunkedOne(DirEntry.CreateVolumeLabel(d.volumeLabel).data);
    }
    if terminated {
      ChunkedOne(Zeros(DirEntry.SIZE));
    }
    ChunkedConcat(RecordsOf(s, d.entries), RecordSeq(s, d.entries), LabelRecord(d), labelSlot);
    ChunkedConcat(RecordsOf(s, d.entries) + LabelRecord(d), RecordSeq(s, d.entries) + labelSlot,
                  if terminated then Zeros(DirEntry.SIZE) else [], end);
  }

  /** A buffer holding chunked bytes from position 0 holds their records in
      its first slots. */
  lemma SlotsFromBytes(b: ByteBuffer.Buffer, count: nat, bytes: seq<Byte>, recs: seq<DirEntry.Record>)
    requires b.pos == 0 && DirEntry.SIZE * count <= b.Capacity() && |recs| <= count
    requires Chunked(bytes, recs) && b.buf[..|bytes|] == bytes
    ensures SlotsOf(b, count) == recs + SlotsOf(b, count)[|recs|..]
  {
    var slots := SlotsOf(b, count);
    forall i | 0 <= i < |recs| ensures slots[i] == recs[i] {
      var p := DirEntry.SIZE * i;
      assert p + DirEntry.SIZE <= |bytes|;
      assert slots[i] == b.buf[p..p + DirEntry.SIZE];
      assert b.buf[..|bytes|][p..p + DirEntry.SIZE] == b.buf[p..p + DirEntry.SIZE];
    }
    assert slots == slots[..|recs|] + slots[|recs|..];
  }

  /** Reading back what a flush hands over: a directory of `capacity`
      slots whose records fill at most its capacity lists its entries, as
      fresh entries with their records, and its label.  The records must
      be ones a listing can hold, the label must have no NUL, and only the
      root may have one. */
  lemma ReadBack(d: Dir, s: Store, b: ByteBuffer.Buffer, readOnly: bool)
    requires Flushable(d, s) && Listable(s, d.entries) && Size(d) <= d.capacity
    requires (d.volumeLabel != [] ==> d.isRoot) && forall j :: 0 <= j < |d.volumeLabel| ==> d.volumeLabel[j] != 0 as char
    requires b.pos == 0 && DirEntry.SIZE * d.capacity <= b.Capacity()
    requires var image := Image(d, s, Size(d) < d.capacity);
             |image| <= b.Capacity() && b.buf[..|image|] == image
    ensures ReadSlots(b, d.capacity, readOnly, d.isRoot) == Ok((FreshOf(s, d.entries, readOnly), d.volumeLabel))
  {
    var terminated := Size(d) < d.capacity;
    ReadSlotsRecords(b, d.capacity, readOnly, d.isRoot);
    ImageChunked(d, s, terminated);
    SlotsFromBytes(b, d.capacity, Image(d, s, terminated), ImageSlots(d, s, terminated));
    ListImage(d, s, terminated, SlotsOf(b, d.capacity)[|ImageSlots(d, s, terminated)|..], readOnly);
  }

  // ------------------------------------------------------------ loading

  /** New objects for the entries read, in order, after every object
      already in the store. */
  function Install(s: Store, es: seq<DirEntry.Entry>): (r: (Store, seq<Id>))
    requires s.Valid()
    ensures r.0.Valid() && |r.1| == |es| && Holds(r.0, r.1)
    ensures forall i :: 0 <= i < |es| ==> r.1[i] !in s.cells && r.0.cells[r.1[i]] == es[i]
    ensures forall i, j :: 0 <= i < j < |es| ==> r.1[i] != r.1[j]
    ensures forall id :: id in s.cells ==> id in r.0.cells && r.0.cells[id] == s.cells[id]
  {
    var ids := seq(|es|, i requires 0 <= i => s.next + i);
    var cells := map id: Id | id < s.next + |es| && (id in s.cells || s.next <= id) ::
                   if id in s.cells then s.cells[id] else es[id - s.next];
    (Store(cells, s.next + |es|), ids)
  }

  /** The loop of `read()` on a buffer holding the table: the entries read
      are appended to the list, and a label read replaces the label. */
  function Load(d: Dir, s: Store, b: ByteBuffer.Buffer): (r: Result<(Store, Dir)>)
    requires s.Valid() && 0 <= d.capacity && b.pos == 0 && DirEntry.SIZE * d.capacity <= b.Capacity()
    ensures r.Err? <==> ReadSlots(b, d.capacity, d.readOnly, d.isRoot).Err?
    ensures r.Err? ==> r.fault == LabelOutsideRoot
    ensures r.Ok? ==> r.value.0.Valid()
    ensures r.Ok? ==> var (t, e) := r.value;
                      var (es, text) := ReadSlots(b, d.capacity, d.readOnly, d.isRoot).value;
                      && e == d.(entries := e.entries, volumeLabel := e.volumeLabel)
                      && |e.entries| == |d.entries| + |es| && e.entries[..|d.entries|] == d.entries
                      && (forall i :: 0 <= i < |es| ==> e.entries[|d.entries| + i] in t.cells && t.cells[e.entries[|d.entries| + i]] == es[i])
                      && e.volumeLabel == (if text != [] then text else d.volumeLabel)
  {
    var (es, text) :- ReadSlots(b, d.capacity, d.readOnly, d.isRoot);
    var (t, ids) := Install(s, es);
    assert (d.entries + ids)[..|d.entries|] == d.entries && (d.entries + ids)[|d.entries|..] == ids;
    Ok((t, d.(entries := d.entries + ids, volumeLabel := if text != [] then text else d.volumeLabel)))
  }

  /** Loading a flushed image into an empty directory of the same shape
      gives back the flushed entries, as fresh entries holding their
      records, in order, and the label. */
  lemma LoadBack(d: Dir, s: Store, b: ByteBuffer.Buffer, t: Store, d0: Dir)
    requires Flushable(d, s) && Listable(s, d.entries) && Size(d) <= d.capacity
    requires (d.volumeLabel != [] ==> d.isRoot) && forall j :: 0 <= j < |d.volumeLabel| ==> d.volumeLabel[j] != 0 as char
    requires b.pos == 0 && DirEntry.SIZE * d.capacity <= b.Capacity()
    requires var image := Image(d, s, Size(d) < d.capacity);
             |image| <= b.Capacity() && b.buf[..|image|] == image
    requires t.Valid() && d0.entries == [] && d0.volumeLabel == [] && d0.capacity == d.capacity && d0.isRoot == d.isRoot
    ensures var r := Load(d0, t, b);
            && r.Ok? && r.value.1.volumeLabel == d.volumeLabel && |r.value.1.entries| == |d.entries|
            && forall i :: 0 <= i < |d.entries| ==>
                 r.value.1.entries[i] in r.value.0.cells
                 && r.value.0.cells[r.value.1.entries[i]] == FreshOf(s, d.entries, d0.readOnly)[i]
  {
    ReadBack(d, s, b, d0.readOnly);
  }
}
