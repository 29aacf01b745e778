/** `AkaiFatFileSystem` with the lifecycle of `AbstractFileSystem`: a FAT16
    volume mounted from a device — the boot sector, the first FAT, the root
    directory with its long names — and the open/closed and read-only flags
    every public operation consults first. */
module FileSystem {
  import opened Wrappers
  import opened Bytes
  import FsObject
  import Device
  import Sector
  import BootSector
  import FatType
  import Fat
  import DirEntry
  import Directory
  import RootDirectory
  import LfnDirectory

  /** The mounted volume.  `root.dir` is the root table (`rootDirStore`),
      shared with the long-name view `root` (`rootDir`); `store` holds the
      table's entries and `dev` is the block device. */
  datatype FileSystem = FileSystem(life: FsObject.Lifecycle, bs: BootSector.BootSector, fat: Fat.Fat,
                                   root: LfnDirectory.LfnDir, store: Directory.Store, dev: Device.Device)

  // ------------------------------------------------------------ invariant

  /** A boot sector the constructor accepted, with geometry whose
      arithmetic is defined. */
  predicate Geometry(bs: BootSector.BootSector)
  {
    && bs.offset == 0 && bs.Data()[510] == 0x55 && bs.Data()[511] == 0xAA
    && Fat.Computable(bs) && Fat.EntryCount(bs, FatType.Fat16) > 0 && BootSector.NrFats(bs) > 0
  }

  /** The bytes of one FAT copy according to the boot sector. */
  function FatSize(bs: BootSector.BootSector): (n: int)
    ensures n >= 0
  {
    MulNonNegative(BootSector.SectorsPerFat(bs), BootSector.BytesPerSector(bs));
    BootSector.SectorsPerFat(bs) * BootSector.BytesPerSector(bs)
  }

  /** The FAT was built from this boot sector. */
  predicate FatMatches(fat: Fat.Fat, bs: BootSector.BootSector)
    requires Geometry(bs)
  {
    && fat.Valid() && fat.kind == FatType.Fat16
    && |fat.entries| == Fat.EntryCount(bs, FatType.Fat16)
    && fat.sectorCount == BootSector.SectorsPerFat(bs) && fat.sectorSize == BootSector.BytesPerSector(bs)
    && fat.lastClusterIndex == BootSector.DataClusterCount(bs) + Fat.FIRST_CLUSTER
  }

  /** The root directory sits in the region the boot sector describes and
      keeps the long-name invariants. */
  predicate Rooted(root: LfnDirectory.LfnDir, store: Directory.Store, bs: BootSector.BootSector, readOnly: bool)
  {
    && store.Valid() && Directory.Holds(store, root.dir.entries)
    && root.dir.isRoot && root.dir.backend.RootRegion?
    && root.dir.backend.offset == BootSector.RootDirOffset(bs)
    && root.dir.capacity == BootSector.RootDirEntryCount(bs)
    && LfnDirectory.Covered(root) && LfnDirectory.Indexed(root) && LfnDirectory.Sound(root, store)
    && root.obj == FsObject.Create(readOnly)
  }

  /** What mounting establishes and every operation keeps. */
  predicate Valid(fs: FileSystem)
  {
    && Geometry(fs.bs) && |fs.dev.data| >= BootSector.SIZE
    && FatMatches(fs.fat, fs.bs)
    && Rooted(fs.root, fs.store, fs.bs, fs.life.readOnly)
  }

  /** Boot sectors that agree on every byte before the volume label, and on
      the signature, describe the same volume. */
  lemma SameGeometry(a: BootSector.BootSector, b: BootSector.BootSector)
    requires forall i :: 0 <= i < BootSector.VOLUME_LABEL_OFFSET ==> a.Data()[i] == b.Data()[i]
    requires a.Data()[510] == b.Data()[510] && a.Data()[511] == b.Data()[511] && a.offset == b.offset
    requires Geometry(a)
    ensures Geometry(b) && FatSize(a) == FatSize(b)
    ensures BootSector.NrFats(a) == BootSector.NrFats(b)
    ensures BootSector.RootDirOffset(a) == BootSector.RootDirOffset(b)
    ensures BootSector.RootDirEntryCount(a) == BootSector.RootDirEntryCount(b)
    ensures BootSector.BytesPerCluster(a) == BootSector.BytesPerCluster(b)
    ensures BootSector.DataClusterCount(a) == BootSector.DataClusterCount(b)
    ensures forall n :: BootSector.FatOffset(a, n) == BootSector.FatOffset(b, n)
    ensures forall f: Fat.Fat :: FatMatches(f, a) ==> FatMatches(f, b)
  {
    FieldsKept(a, b);
    FieldsDetermine(a, b);
  }

  /** The boot-sector fields the layout is computed from agree. */
  predicate SameFields(a: BootSector.BootSector, b: BootSector.BootSector)
  {
    && BootSector.BytesPerSector(a) == BootSector.BytesPerSector(b)
    && BootSector.NrReservedSectors(a) == BootSector.NrReservedSectors(b)
    && BootSector.SectorsPerFat(a) == BootSector.SectorsPerFat(b)
    && BootSector.NrFats(a) == BootSector.NrFats(b)
    && BootSector.SectorsPerCluster(a) == BootSector.SectorsPerCluster(b)
    && BootSector.RootDirEntryCount(a) == BootSector.RootDirEntryCount(b)
    && BootSector.SectorCount(a) == BootSector.SectorCount(b)
  }

  /** Every layout field lies before the volume label. */
  lemma FieldsKept(a: BootSector.BootSector, b: BootSector.BootSector)
    requires forall i :: 0 <= i < BootSector.VOLUME_LABEL_OFFSET ==> a.Data()[i] == b.Data()[i]
    ensures SameFields(a, b)
  {
    BootSector.SameField16(a, b, BootSector.BYTES_PER_SECTOR_OFFSET);
    BootSector.SameField16(a, b, BootSector.RESERVED_SECTORS_OFFSET);
    BootSector.SameField16(a, b, BootSector.SECTORS_PER_FAT_OFFSET);
    BootSector.SameField16(a, b, BootSector.ROOT_DIR_ENTRIES_OFFSET);
    BootSector.SameSectorCount(a, b);
    assert a.Data()[BootSector.FAT_COUNT_OFFSET] == b.Data()[BootSector.FAT_COUNT_OFFSET];
    assert a.Data()[BootSector.SECTORS_PER_CLUSTER_OFFSET] == b.Data()[BootSector.SECTORS_PER_CLUSTER_OFFSET];
  }

  /** The layout is a function of those fields. */
  lemma FieldsDetermine(a: BootSector.BootSector, b: BootSector.BootSector)
    requires SameFields(a, b)
    ensures FatSize(a) == FatSize(b) && BootSector.BytesPerCluster(a) == BootSector.BytesPerCluster(b)
    ensures forall n :: BootSector.FatOffset(a, n) == BootSector.FatOffset(b, n)
    ensures BootSector.RootDirOffset(a) == BootSector.RootDirOffset(b)
    ensures BootSector.DataSize(a) == BootSector.DataSize(b)
    ensures BootSector.BytesPerCluster(a) != 0 ==> BootSector.DataClusterCount(a) == BootSector.DataClusterCount(b)
    ensures Fat.Computable(a) == Fat.Computable(b)
    ensures Fat.EntryCount(a, FatType.Fat16) == Fat.EntryCount(b, FatType.Fat16)
  {
  }

  // --------------------------------------------------------------- mount

  /** Devices the constructor's arithmetic is defined on: a readable boot
      sector has a geometry the FAT can be sized from, and a FAT of at
      least one entry for the comparison of copies to read the medium
      descriptor from. */
  predicate Mountable(dev: Device.Device)
  {
    BootSector.Read(dev).Ok? ==>
      Fat.Computable(BootSector.Read(dev).value) && Fat.EntryCount(BootSector.Read(dev).value, FatType.Fat16) > 0
  }

  /** FAT copy `j` reads and holds the same table as `fat`. */
  predicate Matches(bs: BootSector.BootSector, fat: Fat.Fat, dev: Device.Device, j: nat)
    requires Fat.Computable(bs) && |fat.entries| == Fat.EntryCount(bs, FatType.Fat16) > 0
  {
    && Fat.Read(bs, j, dev, j).Ok?
    && Fat.EqualsByKind(fat, Fat.Read(bs, j, dev, j).value)
  }

  /** The loop over the FAT copies `i` up to the count: each copy is read
      (as a separate construction, so with a type object of its own) and
      compared with the first; the first difference ends the mount.  The
      comparison is the corrected one when `byKind` holds and `equals` as
      written otherwise. */
  function CompareCopies(bs: BootSector.BootSector, fat: Fat.Fat, dev: Device.Device, i: nat, byKind: bool)
    : (r: Result<()>)
    requires Fat.Computable(bs) && |fat.entries| == Fat.EntryCount(bs, FatType.Fat16) > 0
    ensures byKind ==> (r.Ok? <==> forall j :: i <= j < BootSector.NrFats(bs) ==> Matches(bs, fat, dev, j))
    ensures r.Err? && (forall j :: i <= j < BootSector.NrFats(bs) ==> Fat.Read(bs, j, dev, j).Ok?) ==>
              r.fault == FatDiffers
    decreases BootSector.NrFats(bs) - i
  {
    if i >= BootSector.NrFats(bs) then Ok(())
    else
      MatchesStep(bs, fat, dev, i);
      match Fat.Read(bs, i, dev, i)
      case Err(e) => Err(e)
      case Ok(copy) =>
        var same := if byKind then Fat.EqualsByKind(fat, copy) else Fat.Equals(fat, copy);
        if !same then Err(FatDiffers) else CompareCopies(bs, fat, dev, i + 1, byKind)
  }

  /** All copies from `i` match exactly when copy `i` does and all copies
      after it do. */
  lemma MatchesStep(bs: BootSector.BootSector, fat: Fat.Fat, dev: Device.Device, i: nat)
    requires Fat.Computable(bs) && |fat.entries| == Fat.EntryCount(bs, FatType.Fat16) > 0
    requires i < BootSector.NrFats(bs)
    ensures (forall j :: i <= j < BootSector.NrFats(bs) ==> Matches(bs, fat, dev, j)) <==>
            (Matches(bs, fat, dev, i) && forall j :: i + 1 <= j < BootSector.NrFats(bs) ==> Matches(bs, fat, dev, j))
  {
  }

  /** `equals` as written rejects the second copy whenever it can be read:
      its type object is not the first copy's. */
  lemma AsWrittenRejectsCopies(bs: BootSector.BootSector, fat: Fat.Fat, dev: Device.Device)
    requires Fat.Computable(bs) && |fat.entries| == Fat.EntryCount(bs, FatType.Fat16) > 0
    requires fat.typeId == 0 && BootSector.NrFats(bs) >= 2 && Fat.Read(bs, 1, dev, 1).Ok?
    ensures CompareCopies(bs, fat, dev, 1, false) == Err(FatDiffers)
  {
    assert Fat.Read(bs, 1, dev, 1).value.typeId == 1;
  }

  /** The first half of the constructor: the boot sector, a positive FAT
      count, the first FAT and, unless differences are ignored, the
      comparison of every further copy with it. */
  function LoadFat(dev: Device.Device, ignoreFatDifferences: bool, byKind: bool)
    : (r: Result<(BootSector.BootSector, Fat.Fat)>)
    requires Mountable(dev)
    ensures BootSector.Read(dev).Err? ==> r == Err(BootSector.Read(dev).fault)
    ensures BootSector.Read(dev).Ok? && BootSector.NrFats(BootSector.Read(dev).value) <= 0 ==> r == Err(NoFats)
    ensures r.Ok? ==> && BootSector.Read(dev) == Ok(r.value.0) && Geometry(r.value.0)
                      && Fat.Read(r.value.0, 0, dev, 0) == Ok(r.value.1) && FatMatches(r.value.1, r.value.0)
    ensures r.Ok? && !ignoreFatDifferences ==> CompareCopies(r.value.0, r.value.1, dev, 1, byKind).Ok?
  {
    var bs :- BootSector.Read(dev);
    if BootSector.NrFats(bs) <= 0 then Err(NoFats)
    else
      var fat :- Fat.Read(bs, 0, dev, 0);
      var _ :- if ignoreFatDifferences then Ok(()) else CompareCopies(bs, fat, dev, 1, byKind);
      Ok((bs, fat))
  }

  /** The second half: the root directory region read into a fresh store,
      and the long-name directory over it, whose constructor parses the
      names once. */
  function LoadRoot(bs: BootSector.BootSector, dev: Device.Device, readOnly: bool, ws: set<Char8>, wsCopy: set<Char8>)
    : (r: Result<(LfnDirectory.LfnDir, Directory.Store)>)
    requires Geometry(bs)
    ensures r.Ok? ==> && Rooted(r.value.0, r.value.1, bs, readOnly) && LfnDirectory.Tracked(r.value.0)
                      && r.value.0.files == map[] && r.value.0.dirs == {}
                      && forall k :: k in r.value.0.index ==>
                           LfnDirectory.Registered(r.value.0, r.value.1, 0, r.value.0.index[k])
  {
    var loaded :- RootDirectory.Read(bs, dev, Directory.Store(map[], 0), readOnly);
    var root :- LfnDirectory.Open(loaded.1, loaded.0, readOnly, BootSector.BytesPerCluster(bs),
                                  BootSector.FilesOffset(bs), ws, wsCopy);
    RootSound(root, loaded.0, bs);
    Ok((root, loaded.0))
  }

  /** A root table sized from the boot sector's 16-bit entry count is one
      the flush buffer can hold. */
  lemma RootSound(root: LfnDirectory.LfnDir, store: Directory.Store, bs: BootSector.BootSector)
    requires LfnDirectory.Linked(root, store) && |root.dir.volumeLabel| <= DirEntry.MAX_LABEL_LENGTH
    requires root.dir.capacity == BootSector.RootDirEntryCount(bs) && root.dir.backend.RootRegion?
    ensures LfnDirectory.Sound(root, store)
  {
  }

  /** The volume stays valid through `addFile` on the root as the program
      runs it, which indexes the new file without putting its name in use:
      the root keeps its region and its invariants, and the name stays
      free. */
  lemma RootAddAsWritten(fs: FileSystem, name: Str)
    requires Valid(fs) && LfnDirectory.AddFileAsWritten(fs.root, fs.store, fs.fat, name).Done?
    ensures var (root, store, fat) := LfnDirectory.AddFileAsWritten(fs.root, fs.store, fs.fat, name).state;
            && Valid(fs.(root := root, store := store, fat := fat))
            && LfnDirectory.Lower(name) in root.index && LfnDirectory.IsFreeName(root, name)
  {
    var r := LfnDirectory.AddFileAsWritten(fs.root, fs.store, fs.fat, name);
    var (root, store, fat) := r.state;
    assert LfnDirectory.Added(fs.root, fs.store, root, store, name, r.value);
    HeldAfterAdd(fs.store, store, fs.root.dir.entries, r.value);
    RootSound(root, store, fs.bs);
  }

  /** Entries held before an add, and the added one, are held after it. */
  lemma HeldAfterAdd(s: Directory.Store, t: Directory.Store, ids: seq<Directory.Id>, id: Directory.Id)
    requires Directory.Holds(s, ids) && id in t.cells && s.cells.Keys <= t.cells.Keys
    ensures Directory.Holds(t, ids + [id])
  {
  }

  /** The constructor as intended: the boot sector, a positive FAT count,
      the first FAT, unless told to ignore differences every further copy
      equal to it by value, the root directory region, and its long names
      parsed once.  The result is open. */
  function Mount(dev: Device.Device, readOnly: bool, ignoreFatDifferences: bool, ws: set<Char8>, wsCopy: set<Char8>)
    : (r: Result<FileSystem>)
    requires Mountable(dev)
    ensures BootSector.Read(dev).Err? ==> r == Err(BootSector.Read(dev).fault)
    ensures BootSector.Read(dev).Ok? && BootSector.NrFats(BootSector.Read(dev).value) <= 0 ==> r == Err(NoFats)
    ensures r.Ok? ==> && Valid(r.value) && r.value.life == FsObject.Open(readOnly) && r.value.dev == dev
                      && BootSector.Read(dev) == Ok(r.value.bs)
                      && Fat.Read(r.value.bs, 0, dev, 0) == Ok(r.value.fat)
                      && r.value.root.files == map[] && r.value.root.dirs == {}
                      && LfnDirectory.Tracked(r.value.root)
    ensures r.Ok? && !ignoreFatDifferences ==>
              forall j :: 1 <= j < BootSector.NrFats(r.value.bs) ==> Matches(r.value.bs, r.value.fat, dev, j)
    ensures r.Ok? ==> forall k :: k in r.value.root.index ==>
                        LfnDirectory.Registered(r.value.root, r.value.store, 0, r.value.root.index[k])
  {
    var (bs, fat) :- LoadFat(dev, ignoreFatDifferences, true);
    var (root, store) :- LoadRoot(bs, dev, readOnly, ws, wsCopy);
    Ok(FileSystem(FsObject.Open(readOnly), bs, fat, root, store, dev))
  }

  /** The constructor as written: `equals` compares the copies' type
      objects, and the root's names are parsed a second time. */
  function MountAsWritten(dev: Device.Device, readOnly: bool, ignoreFatDifferences: bool,
                          ws: set<Char8>, wsCopy: set<Char8>): (r: Result<FileSystem>)
    requires Mountable(dev)
    ensures BootSector.Read(dev).Err? ==> r == Err(BootSector.Read(dev).fault)
    ensures r.Ok? ==> Geometry(r.value.bs) && FatMatches(r.value.fat, r.value.bs)
  {
    var (bs, fat) :- LoadFat(dev, ignoreFatDifferences, false);
    var (root, store) :- LoadRoot(bs, dev, readOnly, ws, wsCopy);
    var parsed :- Reparse(root, store, ws, wsCopy);
    Ok(FileSystem(FsObject.Open(readOnly), bs, fat, parsed, store, dev))
  }

  /** The constructor's own `parseLfn()`, run over a directory that the
      long-name directory's constructor has already parsed. */
  function Reparse(root: LfnDirectory.LfnDir, store: Directory.Store, ws: set<Char8>, wsCopy: set<Char8>)
    : (r: Result<LfnDirectory.LfnDir>)
    requires Directory.Holds(store, root.dir.entries) && LfnDirectory.Tracked(root) && LfnDirectory.Indexed(root)
    ensures r.Ok? ==> r.value.dir == root.dir && r.value.index.Keys >= root.index.Keys
  {
    LfnDirectory.Parse(root, store, 0, ws, wsCopy)
  }

  /** With two or more FATs and differences not ignored, the constructor
      as written refuses every volume whose second copy can be read, even
      an exact copy of the first. */
  lemma MountAsWrittenRejectsCopies(dev: Device.Device, readOnly: bool, ws: set<Char8>, wsCopy: set<Char8>)
    requires Mountable(dev) && BootSector.Read(dev).Ok?
    requires var bs := BootSector.Read(dev).value;
             && BootSector.NrFats(bs) >= 2 && Fat.Read(bs, 0, dev, 0).Ok? && Fat.Read(bs, 1, dev, 1).Ok?
    ensures MountAsWritten(dev, readOnly, false, ws, wsCopy) == Err(FatDiffers)
  {
    var bs := BootSector.Read(dev).value;
    AsWrittenRejectsCopies(bs, Fat.Read(bs, 0, dev, 0).value, dev);
  }

  /** The second `parseLfn` finds every name of the first one already in
      use: a root directory with any long name in it cannot be mounted by
      the constructor as written. */
  lemma MountAsWrittenRejectsNames(dev: Device.Device, readOnly: bool, ignoreFatDifferences: bool,
                                   ws: set<Char8>, wsCopy: set<Char8>)
    requires Mountable(dev)
    requires Mount(dev, readOnly, ignoreFatDifferences, ws, wsCopy).Ok?
    requires Mount(dev, readOnly, ignoreFatDifferences, ws, wsCopy).value.root.index != map[]
    requires ignoreFatDifferences || BootSector.NrFats(BootSector.Read(dev).value) == 1
    ensures MountAsWritten(dev, readOnly, ignoreFatDifferences, ws, wsCopy) == Err(NameInUse)
  {
    var bs := BootSector.Read(dev).value;
    var loaded := RootDirectory.Read(bs, dev, Directory.Store(map[], 0), readOnly).value;
    var store := loaded.0;
    var empty := LfnDirectory.LfnDir(loaded.1, map[], {}, map[], {}, FsObject.Create(readOnly),
                                     BootSector.BytesPerCluster(bs), BootSector.FilesOffset(bs));
    var root := Mount(dev, readOnly, ignoreFatDifferences, ws, wsCopy).value.root;
    assert LfnDirectory.Parse(empty, store, 0, ws, wsCopy) == Ok(root);
    assert root.index.Keys != {} by {
      var k :| k in root.index;
    }
    LfnDirectory.ParseAgainFails(empty, root, store, 0, ws, wsCopy);
  }

  // --------------------------------------------------------------- label

  /** `getVolumeLabel`: the root directory's label, on an open file
      system. */
  function GetVolumeLabel(fs: FileSystem): (r: Result<Str>)
    requires Valid(fs)
    ensures r.Err? <==> fs.life.closed
    ensures r.Err? ==> r.fault == FileSystemClosed
    ensures r.Ok? ==> r.value == fs.root.dir.volumeLabel && |r.value| <= DirEntry.MAX_LABEL_LENGTH
  {
    var _ :- FsObject.CheckClosed(fs.life);
    Directory.GetLabel(fs.root.dir)
  }

  /** `setVolumeLabel`: on an open, writable file system the label goes to
      the root directory and then to the boot sector.  A label the boot
      sector refuses (a character beyond seven bits) leaves the root
      directory's label already changed, and the boot sector holding the
      characters before the refused one. */
  function SetVolumeLabel(fs: FileSystem, text: Str): (r: Partial<FileSystem, ()>)
    requires Valid(fs)
    ensures Valid(r.state) && r.state.life == fs.life && r.state.fat == fs.fat && r.state.dev == fs.dev
    ensures fs.life.closed ==> r == Aborted(fs, FileSystemClosed)
    ensures !fs.life.closed && fs.life.readOnly ==> r == Aborted(fs, ReadOnlyFileSystem)
    ensures !fs.life.closed && !fs.life.readOnly && |text| > DirEntry.MAX_LABEL_LENGTH ==> r == Aborted(fs, LabelTooLong)
    ensures r.Done? <==> (&& !fs.life.closed && !fs.life.readOnly
                          && |text| <= DirEntry.MAX_LABEL_LENGTH && BootSector.SevenBit(text))
    ensures r.Done? ==> GetVolumeLabel(r.state) == Ok(text) && r.state.bs.dirty
    ensures r.Done? && BootSector.NulFree(text) ==> BootSector.VolumeLabel(r.state.bs) == text
    ensures r.Aborted? && !fs.life.closed && !fs.life.readOnly && |text| <= DirEntry.MAX_LABEL_LENGTH ==>
              && r.state == fs.(root := fs.root.(dir := fs.root.dir.(volumeLabel := text)), bs := r.state.bs)
              && r.fault == ValueOutOfRange
              && BootSector.PartlyStored(r.state.bs, fs.bs, BootSector.VOLUME_LABEL_OFFSET, text,
                                         BootSector.SevenBitPrefix(text))
  {
    if FsObject.CheckClosed(fs.life).Err? then Aborted(fs, FileSystemClosed)
    else if FsObject.CheckReadOnly(fs.life).Err? then Aborted(fs, ReadOnlyFileSystem)
    else
      match Directory.SetLabel(fs.root.dir, text)
      case Err(e) => Aborted(fs, e)
      case Ok(dir) =>
        var fs1 := fs.(root := fs.root.(dir := dir));
        var put := BootSector.SetVolumeLabel(fs.bs, text);
        SameGeometry(fs.bs, put.state);
        match put
        case Aborted(bs, e) => Aborted(fs1.(bs := bs), e)
        case Done(bs, _) => Done(fs1.(bs := bs), ())
  }

  // --------------------------------------------------------------- flush

  /** FAT copy `j` on the device holds the encoding of `fat`. */
  predicate HoldsCopy(dev: Device.Device, bs: BootSector.BootSector, fat: Fat.Fat, j: nat)
    requires fat.Valid()
  {
    var off := BootSector.FatOffset(bs, j);
    && off + fat.Size() <= |dev.data|
    && dev.data[off..off + fat.Size()] == Fat.EncodeEntries(fat.kind, fat.entries, fat.Size())
  }

  /** A copy survives writes that leave its bytes alone. */
  lemma CopyKept(dev: Device.Device, dev1: Device.Device, bs: BootSector.BootSector, fat: Fat.Fat, j: nat)
    requires fat.Valid() && HoldsCopy(dev, bs, fat, j) && |dev1.data| == |dev.data|
    requires var off := BootSector.FatOffset(bs, j);
             forall x :: off <= x < off + fat.Size() ==> dev1.data[x] == dev.data[x]
    ensures HoldsCopy(dev1, bs, fat, j)
  {
    var off := BootSector.FatOffset(bs, j);
    assert dev1.data[off..off + fat.Size()] == dev.data[off..off + fat.Size()];
  }

  /** Every FAT copy from `i` on, of `size` bytes, ends within `n` bytes. */
  predicate CopiesFit(bs: BootSector.BootSector, size: int, n: int, i: nat)
  {
    forall j :: i <= j < BootSector.NrFats(bs) ==> BootSector.FatOffset(bs, j) + size <= n
  }

  /** The copies from `i` fit exactly when copy `i` and those after it do. */
  lemma FitsStep(bs: BootSector.BootSector, size: int, n: int, i: nat)
    requires i < BootSector.NrFats(bs)
    ensures CopiesFit(bs, size, n, i) <==> BootSector.FatOffset(bs, i) + size <= n && CopiesFit(bs, size, n, i + 1)
  {
  }

  /** FAT copy `j` ends within `n` bytes. */
  predicate CopyFits(bs: BootSector.BootSector, size: int, n: int, j: nat)
  {
    BootSector.FatOffset(bs, j) + size <= n
  }

  /** The loop of `flush` over the FAT copies from `i` on: each copy is
      written in turn at its offset, and the first copy that runs past the
      device throws with the copies before it written.  Copies lie back to
      back, so every copy that fits ends up holding the table and nothing
      before the first copy or after the last one changes. */
  function WriteCopies(fat: Fat.Fat, bs: BootSector.BootSector, dev: Device.Device, i: nat): (r: Partial<Device.Device, ()>)
    requires fat.Valid() && fat.Size() == FatSize(bs)
    ensures r.Done? <==> CopiesFit(bs, fat.Size(), |dev.data|, i)
    ensures r.Aborted? ==> r.fault == DevicePastEnd
    ensures |r.state.data| == |dev.data|
    ensures forall j :: i <= j < BootSector.NrFats(bs) && CopyFits(bs, fat.Size(), |dev.data|, j) ==>
              HoldsCopy(r.state, bs, fat, j)
    ensures forall x :: 0 <= x < |dev.data| && (x < BootSector.FatOffset(bs, i) || BootSector.RootDirOffset(bs) <= x) ==>
              r.state.data[x] == dev.data[x]
    decreases BootSector.NrFats(bs) - i
  {
    if i >= BootSector.NrFats(bs) then Done(dev, ())
    else
      var off := BootSector.FatOffset(bs, i);
      FitsStep(bs, fat.Size(), |dev.data|, i);
      match Fat.WriteCopy(fat, dev, off)
      case Err(e) =>
        LaterCopiesMisfit(bs, fat.Size(), |dev.data|, i);
        Aborted(dev, e)
      case Ok(dev1) =>
        var r := WriteCopies(fat, bs, dev1, i + 1);
        CopiesWritten(fat, bs, dev, dev1, r.state, i);
        r
  }

  /** Copies lie in ascending order, so none after a copy that runs past
      `n` fits either. */
  lemma LaterCopiesMisfit(bs: BootSector.BootSector, size: int, n: int, i: nat)
    requires !CopyFits(bs, size, n, i)
    ensures forall j :: i <= j ==> !CopyFits(bs, size, n, j)
  {
    forall j | i <= j ensures !CopyFits(bs, size, n, j) {
      MulNonNegative(BootSector.SectorsPerFat(bs), BootSector.BytesPerSector(bs));
      BootSector.FatCopiesAdjacent(bs, i, j);
    }
  }

  /** One step of the loop: copy `i` written to `dev1`, the rest to `dev2`. */
  lemma CopiesWritten(fat: Fat.Fat, bs: BootSector.BootSector, dev: Device.Device, dev1: Device.Device,
                      dev2: Device.Device, i: nat)
    requires fat.Valid() && fat.Size() == FatSize(bs) && i < BootSector.NrFats(bs)
    requires Fat.WriteCopy(fat, dev, BootSector.FatOffset(bs, i)) == Ok(dev1)
    requires |dev2.data| == |dev1.data|
    requires forall j :: i + 1 <= j < BootSector.NrFats(bs) && CopyFits(bs, fat.Size(), |dev1.data|, j) ==>
               HoldsCopy(dev2, bs, fat, j)
    requires forall x :: 0 <= x < |dev1.data| && (x < BootSector.FatOffset(bs, i + 1) || BootSector.RootDirOffset(bs) <= x) ==>
               dev2.data[x] == dev1.data[x]
    ensures forall j :: i <= j < BootSector.NrFats(bs) && CopyFits(bs, fat.Size(), |dev.data|, j) ==>
              HoldsCopy(dev2, bs, fat, j)
    ensures forall x :: 0 <= x < |dev.data| && (x < BootSector.FatOffset(bs, i) || BootSector.RootDirOffset(bs) <= x) ==>
              dev2.data[x] == dev.data[x]
  {
    WrittenHere(fat, bs, dev, dev1, dev2, i);
    FrameWritten(fat, bs, dev, dev1, dev2, i);
  }

  /** Copy `i`, written to `dev1`, survives the later writes. */
  lemma WrittenHere(fat: Fat.Fat, bs: BootSector.BootSector, dev: Device.Device, dev1: Device.Device,
                    dev2: Device.Device, i: nat)
    requires fat.Valid() && fat.Size() == FatSize(bs) && i < BootSector.NrFats(bs)
    requires Fat.WriteCopy(fat, dev, BootSector.FatOffset(bs, i)) == Ok(dev1)
    requires |dev2.data| == |dev1.data|
    requires forall x :: 0 <= x < |dev1.data| && x < BootSector.FatOffset(bs, i + 1) ==> dev2.data[x] == dev1.data[x]
    ensures HoldsCopy(dev2, bs, fat, i) && |dev1.data| == |dev.data|
  {
    var off := BootSector.FatOffset(bs, i);
    BootSector.FatCopiesAdjacent(bs, i, i + 1);
    assert HoldsCopy(dev1, bs, fat, i);
    CopyKept(dev1, dev2, bs, fat, i);
  }

  /** The bytes outside copy `i`'s and the later copies' span survive both
      writes of a loop step. */
  lemma FrameWritten(fat: Fat.Fat, bs: BootSector.BootSector, dev: Device.Device, dev1: Device.Device,
                     dev2: Device.Device, i: nat)
    requires fat.Valid() && fat.Size() == FatSize(bs) && i < BootSector.NrFats(bs)
    requires Fat.WriteCopy(fat, dev, BootSector.FatOffset(bs, i)) == Ok(dev1)
    requires |dev2.data| == |dev1.data|
    requires forall x :: 0 <= x < |dev1.data| && (x < BootSector.FatOffset(bs, i + 1) || BootSector.RootDirOffset(bs) <= x) ==>
               dev2.data[x] == dev1.data[x]
    ensures forall x :: 0 <= x < |dev.data| && (x < BootSector.FatOffset(bs, i) || BootSector.RootDirOffset(bs) <= x) ==>
              dev2.data[x] == dev.data[x]
  {
    var off := BootSector.FatOffset(bs, i);
    BootSector.FatCopiesAdjacent(bs, i, i + 1);
    BootSector.FatCopiesAdjacent(bs, i, BootSector.NrFats(bs));
    forall x | 0 <= x < |dev.data| && (x < off || BootSector.RootDirOffset(bs) <= x) ensures dev2.data[x] == dev.data[x] {
    }
  }

  /** Every FAT copy lies before the root directory region. */
  lemma CopiesBeforeRoot(bs: BootSector.BootSector, n: int)
    requires BootSector.RootDirOffset(bs) <= n
    ensures CopiesFit(bs, FatSize(bs), n, 0)
  {
    forall j | 0 <= j < BootSector.NrFats(bs) ensures BootSector.FatOffset(bs, j) + FatSize(bs) <= n {
      BootSector.FatCopiesAdjacent(bs, j, BootSector.NrFats(bs));
    }
  }

  /** Copies survive writes that leave everything before the root region
      alone. */
  lemma CopiesKeptBelow(dev: Device.Device, dev1: Device.Device, bs: BootSector.BootSector, fat: Fat.Fat)
    requires fat.Valid() && fat.Size() == FatSize(bs) && |dev1.data| == |dev.data|
    requires forall j :: 0 <= j < BootSector.NrFats(bs) ==> HoldsCopy(dev, bs, fat, j)
    requires 0 <= BootSector.RootDirOffset(bs) <= |dev.data|
    requires dev1.data[..BootSector.RootDirOffset(bs)] == dev.data[..BootSector.RootDirOffset(bs)]
    ensures forall j :: 0 <= j < BootSector.NrFats(bs) ==> HoldsCopy(dev1, bs, fat, j)
  {
    var end := BootSector.RootDirOffset(bs);
    forall j | 0 <= j < BootSector.NrFats(bs) ensures HoldsCopy(dev1, bs, fat, j) {
      BootSector.FatCopiesAdjacent(bs, j, BootSector.NrFats(bs));
      var off := BootSector.FatOffset(bs, j);
      forall x | off <= x < off + fat.Size() ensures dev1.data[x] == dev.data[x] {
        assert dev1.data[..end][x] == dev.data[..end][x];
      }
      CopyKept(dev, dev1, bs, fat, j);
    }
  }

  /** A prefix of equal prefixes is equal. */
  lemma ShorterPrefix(a: seq<Byte>, b: seq<Byte>, m: nat, n: nat)
    requires m <= n <= |a| && n <= |b| && a[..n] == b[..n]
    ensures a[..m] == b[..m]
  {
    assert a[..m] == a[..n][..m];
    assert b[..m] == b[..n][..m];
  }

  /** When `flush` on an open file system completes: the root directory is
      writable, its files flush, its names fit its slots (the label not
      counted), and its flush buffer, one slot longer than the table when
      there is a label, lies on the device. */
  predicate Flushes(fs: FileSystem)
  {
    && !fs.life.readOnly && LfnDirectory.FlushFiles(fs.root.files).Ok?
    && |LfnDirectory.Listing(fs.root)| <= fs.root.dir.capacity
    && BootSector.RootDirOffset(fs.bs) + DirEntry.SIZE * LfnDirectory.RootSlots(fs.root.dir) <= |fs.dev.data|
  }

  /** A root region on the device puts every FAT copy on it. */
  lemma FlushesFit(fs: FileSystem)
    requires Valid(fs) && Flushes(fs)
    ensures CopiesFit(fs.bs, FatSize(fs.bs), |fs.dev.data|, 0)
  {
    CopiesBeforeRoot(fs.bs, |fs.dev.data|);
  }

  /** The boot sector, when dirty, and then every FAT copy, written out.
      A copy that runs past the device throws, with the boot sector and
      the copies before it already written. */
  function WriteMeta(fs: FileSystem): (r: Partial<(BootSector.BootSector, Device.Device), ()>)
    requires Valid(fs)
    ensures r.Done? <==> CopiesFit(fs.bs, FatSize(fs.bs), |fs.dev.data|, 0)
    ensures r.Aborted? ==> r.fault == DevicePastEnd
    ensures && r.state.0.Data() == fs.bs.Data() && !r.state.0.dirty && r.state.0.offset == 0
            && |r.state.1.data| == |fs.dev.data|
            && (forall j :: 0 <= j < BootSector.NrFats(fs.bs) && CopyFits(fs.bs, FatSize(fs.bs), |fs.dev.data|, j) ==>
                  HoldsCopy(r.state.1, fs.bs, fs.fat, j))
    ensures fs.bs.dirty && BootSector.FatOffset(fs.bs, 0) >= BootSector.SIZE ==>
              r.state.1.data[..BootSector.SIZE] == fs.bs.Data()
  {
    WriteMetaOf(fs.bs, fs.fat, fs.dev)
  }

  /** The boot sector then every FAT copy, on the parts of a file system
      they touch. */
  function WriteMetaOf(bs: BootSector.BootSector, fat: Fat.Fat, dev: Device.Device)
    : (r: Partial<(BootSector.BootSector, Device.Device), ()>)
    requires bs.offset == 0 && |dev.data| >= BootSector.SIZE && fat.Valid() && fat.Size() == FatSize(bs)
    ensures r.Done? <==> CopiesFit(bs, FatSize(bs), |dev.data|, 0)
    ensures r.Aborted? ==> r.fault == DevicePastEnd
    ensures && r.state.0.Data() == bs.Data() && !r.state.0.dirty && r.state.0.offset == 0
            && |r.state.1.data| == |dev.data|
            && (forall j :: 0 <= j < BootSector.NrFats(bs) && CopyFits(bs, FatSize(bs), |dev.data|, j) ==>
                  HoldsCopy(r.state.1, bs, fat, j))
    ensures bs.dirty && BootSector.FatOffset(bs, 0) >= BootSector.SIZE ==>
              r.state.1.data[..BootSector.SIZE] == bs.Data()
  {
    var (dev1, sec) := Sector.Write(bs, dev).value;
    var bs1: BootSector.BootSector := sec;
    assert |dev1.data| == |dev.data| && bs1.Data() == bs.Data();
    var c := WriteCopies(fat, bs, dev1, 0);
    assert bs.dirty && BootSector.FatOffset(bs, 0) >= BootSector.SIZE ==>
      c.state.data[..BootSector.SIZE] == bs.Data() by {
      if bs.dirty && BootSector.FatOffset(bs, 0) >= BootSector.SIZE {
        assert dev1.data[..BootSector.SIZE] == bs.Data();
        PrefixKept(dev1.data, c.state.data, BootSector.SIZE, BootSector.FatOffset(bs, 0));
      }
    }
    if c.Done? then Done((bs1, c.state), ()) else Aborted((bs1, c.state), c.fault)
  }

  /** When every copy fits, `WriteMeta` leaves every copy holding the table. */
  lemma MetaWritten(fs: FileSystem)
    requires Valid(fs) && WriteMeta(fs).Done?
    ensures forall j :: 0 <= j < BootSector.NrFats(fs.bs) ==> HoldsCopy(WriteMeta(fs).state.1, fs.bs, fs.fat, j)
  {
    var m := WriteMeta(fs);
    forall j | 0 <= j < BootSector.NrFats(fs.bs) ensures HoldsCopy(m.state.1, fs.bs, fs.fat, j) {
      assert CopyFits(fs.bs, FatSize(fs.bs), |fs.dev.data|, j);
    }
  }

  /** Bytes below `lo` that a write left alone keep every prefix up to `lo`. */
  lemma PrefixKept(a: seq<Byte>, b: seq<Byte>, n: nat, lo: int)
    requires |a| == |b| && n <= lo && n <= |a|
    requires forall x :: 0 <= x < |a| && x < lo ==> b[x] == a[x]
    ensures b[..n] == a[..n]
  {
  }

  /** `flush`: on an open file system, the boot sector if dirty, every FAT
      copy, and the root directory.  The root region follows the last FAT
      copy, so the FAT copies and the boot sector stay as written. */
  method Flush(fs: FileSystem) returns (r: Partial<FileSystem, ()>)
    requires Valid(fs)
    ensures r.state.life == fs.life
    ensures fs.life.closed ==> r == Aborted(fs, FileSystemClosed)
    ensures !fs.life.closed && WriteMeta(fs).Aborted? ==>
              r == Aborted(fs.(bs := WriteMeta(fs).state.0, dev := WriteMeta(fs).state.1), DevicePastEnd)
    ensures r.Done? <==> !fs.life.closed && Flushes(fs)
    ensures r.Done? ==> Valid(r.state) && r.state.fat == fs.fat && |r.state.dev.data| == |fs.dev.data|
    ensures r.Done? ==> !r.state.bs.dirty && r.state.bs.Data() == fs.bs.Data()
    ensures r.Done? ==> forall j :: 0 <= j < BootSector.NrFats(fs.bs) ==> HoldsCopy(r.state.dev, fs.bs, fs.fat, j)
    ensures r.Done? ==> && r.state.root == fs.root.(dir := fs.root.dir.(entries := LfnDirectory.Listing(fs.root)))
                        && r.state.store == Directory.Cleaned(fs.store, LfnDirectory.Listing(fs.root))
    ensures r.Done? && fs.bs.dirty && BootSector.FatOffset(fs.bs, 0) >= BootSector.SIZE ==>
              r.state.dev.data[..BootSector.SIZE] == fs.bs.Data()
  {
    if FsObject.CheckClosed(fs.life).Err? {
      return Aborted(fs, FileSystemClosed);
    }
    if Flushes(fs) {
      FlushesFit(fs);
    }
    var m := WriteMeta(fs);
    var (bs1, dev2) := m.state;
    if m.Aborted? {
      return Aborted(fs.(bs := bs1, dev := dev2), m.fault);
    }
    MetaWritten(fs);
    r := FlushRoot(fs, bs1, dev2);
  }

  /** The second half of `flush`: the root directory, written over the
      device that already holds the boot sector and the FAT copies. */
  method FlushRoot(fs: FileSystem, bs1: BootSector.BootSector, dev2: Device.Device) returns (r: Partial<FileSystem, ()>)
    requires Valid(fs) && bs1.Data() == fs.bs.Data() && !bs1.dirty && bs1.offset == 0
    requires |dev2.data| == |fs.dev.data| && CopiesFit(fs.bs, FatSize(fs.bs), |fs.dev.data|, 0)
    requires forall j :: 0 <= j < BootSector.NrFats(fs.bs) ==> HoldsCopy(dev2, fs.bs, fs.fat, j)
    ensures r.state.life == fs.life && r.state.bs == bs1
    ensures r.Done? <==> Flushes(fs)
    ensures r.Done? ==> Valid(r.state) && r.state.fat == fs.fat && |r.state.dev.data| == |fs.dev.data|
    ensures r.Done? ==> forall j :: 0 <= j < BootSector.NrFats(fs.bs) ==> HoldsCopy(r.state.dev, fs.bs, fs.fat, j)
    ensures r.Done? ==> && r.state.root == fs.root.(dir := fs.root.dir.(entries := LfnDirectory.Listing(fs.root)))
                        && r.state.store == Directory.Cleaned(fs.store, LfnDirectory.Listing(fs.root))
    ensures r.Done? && BootSector.FatOffset(fs.bs, 0) >= BootSector.SIZE ==>
              r.state.dev.data[..BootSector.SIZE] == dev2.data[..BootSector.SIZE]
  {
    SameGeometry(fs.bs, bs1);
    var rf := LfnDirectory.Flush(fs.root, fs.store, fs.fat, dev2);
    RootFlushes(fs, dev2);
    var (root, store, fat, dev3) := rf.state;
    var fs1 := FileSystem(fs.life, bs1, fat, root, store, dev3);
    if rf.Aborted? {
      return Aborted(fs1, rf.fault);
    }
    Flushed(fs, dev2, fs1);
    r := Done(fs1, ());
  }

  /** The root directory's flush completes exactly when `Flushes` says. */
  lemma RootFlushes(fs: FileSystem, dev: Device.Device)
    requires Valid(fs) && |dev.data| == |fs.dev.data|
    ensures (&& FsObject.CheckWritable(fs.root.obj).Ok? && LfnDirectory.FlushFiles(fs.root.files).Ok?
             && |LfnDirectory.Listing(fs.root)| <= fs.root.dir.capacity
             && fs.root.dir.backend.offset + DirEntry.SIZE * LfnDirectory.RootSlots(fs.root.dir) <= |dev.data|)
            <==> Flushes(fs)
  {
  }

  /** What a completed `flush` leaves: a mounted volume again, whose FAT
      copies and boot sector the root directory's write did not touch. */
  lemma Flushed(fs: FileSystem, dev2: Device.Device, fs1: FileSystem)
    requires Valid(fs) && Geometry(fs1.bs) && FatMatches(fs.fat, fs1.bs)
    requires fs1.bs.Data() == fs.bs.Data() && fs1.fat == fs.fat && fs1.life == fs.life
    requires fs1.root == fs.root.(dir := fs.root.dir.(entries := LfnDirectory.Listing(fs.root)))
    requires fs1.store == Directory.Cleaned(fs.store, LfnDirectory.Listing(fs.root))
    requires |dev2.data| == |fs.dev.data| == |fs1.dev.data|
    requires forall j :: 0 <= j < BootSector.NrFats(fs.bs) ==> HoldsCopy(dev2, fs.bs, fs.fat, j)
    requires BootSector.RootDirOffset(fs.bs) <= |dev2.data|
    requires fs1.dev.data[..BootSector.RootDirOffset(fs.bs)] == dev2.data[..BootSector.RootDirOffset(fs.bs)]
    ensures Valid(fs1)
    ensures forall j :: 0 <= j < BootSector.NrFats(fs.bs) ==> HoldsCopy(fs1.dev, fs.bs, fs.fat, j)
    ensures BootSector.FatOffset(fs.bs, 0) >= BootSector.SIZE ==>
              fs1.dev.data[..BootSector.SIZE] == dev2.data[..BootSector.SIZE]
  {
    SameGeometry(fs.bs, fs1.bs);
    RootFlushed(fs.root, fs.store, fs.bs, fs1.bs, fs.life.readOnly);
    CopiesKeptBelow(dev2, fs1.dev, fs.bs, fs.fat);
    BootSector.FatCopiesAdjacent(fs.bs, 0, BootSector.NrFats(fs.bs));
    if BootSector.FatOffset(fs.bs, 0) >= BootSector.SIZE {
      ShorterPrefix(fs1.dev.data, dev2.data, BootSector.SIZE, BootSector.RootDirOffset(fs.bs));
    }
  }

  /** The root directory after its flush: its listing as its entries, over
      the cleaned store, is still the mounted root. */
  lemma RootFlushed(root: LfnDirectory.LfnDir, store: Directory.Store, bs: BootSector.BootSector,
                    bs1: BootSector.BootSector, readOnly: bool)
    requires Rooted(root, store, bs, readOnly)
    requires BootSector.RootDirOffset(bs1) == BootSector.RootDirOffset(bs)
    requires BootSector.RootDirEntryCount(bs1) == BootSector.RootDirEntryCount(bs)
    ensures Rooted(root.(dir := root.dir.(entries := LfnDirectory.Listing(root))),
                   Directory.Cleaned(store, LfnDirectory.Listing(root)), bs1, readOnly)
  {
    LfnDirectory.ListingHeld(root, store);
  }

  // --------------------------------------------------------------- close

  /** `close`: an open file system is flushed unless it is read-only, and
      then marked closed; a flush that fails leaves it open.  Closing a
      closed file system does nothing, so closing is idempotent. */
  method Close(fs: FileSystem) returns (r: Partial<FileSystem, ()>)
    requires Valid(fs)
    ensures fs.life.closed ==> r == Done(fs, ())
    ensures !fs.life.closed && fs.life.readOnly ==> r == Done(fs.(life := FsObject.Closed(fs.life)), ())
    ensures FsObject.CloseFlushes(fs.life) ==> (r.Done? <==> Flushes(fs))
    ensures r.Done? ==> r.state.life.closed && r.state.life.readOnly == fs.life.readOnly && Valid(r.state)
    ensures r.Aborted? ==> r.state.life == fs.life && !fs.life.closed
  {
    if fs.life.closed {
      return Done(fs, ());
    }
    var fs1 := fs;
    if !fs.life.readOnly {
      var f := Flush(fs);
      if f.Aborted? {
        return f;
      }
      fs1 := f.state;
    }
    r := Done(fs1.(life := FsObject.Closed(fs.life)), ());
  }

  // --------------------------------------------------------------- space

  /** `getFreeSpace`: the free clusters times the cluster size, widened to
      64 bits before the product. */
  function GetFreeSpace(fs: FileSystem): (r: Result<int>)
    requires Valid(fs)
    ensures r.Err? <==> fs.life.closed
    ensures r.Err? ==> r.fault == FileSystemClosed
    ensures r.Ok? ==> r.value == Fat.FreeCount(fs.fat) * BootSector.BytesPerCluster(fs.bs)
  {
    var _ :- FsObject.CheckClosed(fs.life);
    Ok(Fat.FreeCount(fs.fat) * BootSector.BytesPerCluster(fs.bs))
  }

  /** `getFreeSpace` as written: both factors are `int`, so the product is
      taken in 32 bits before it is widened to the 64-bit result. */
  function GetFreeSpaceAsWritten(fs: FileSystem): (r: Result<int>)
    requires Valid(fs)
    ensures r.Err? <==> fs.life.closed
    ensures r.Ok? ==> -0x8000_0000 <= r.value <= INT_MAX
    ensures r.Ok? && -0x8000_0000 <= GetFreeSpace(fs).value <= INT_MAX ==> r.value == GetFreeSpace(fs).value
    ensures r.Ok? && INT_MAX < GetFreeSpace(fs).value < UINT32_LIMIT ==> r.value == GetFreeSpace(fs).value - UINT32_LIMIT < 0
  {
    var _ :- FsObject.CheckClosed(fs.life);
    var product := Fat.FreeCount(fs.fat) * BootSector.BytesPerCluster(fs.bs);
    assert GetFreeSpace(fs) == Ok(product);
    if INT_MAX < product < UINT32_LIMIT then Int32Wraps(product); Ok(Int32(product))
    else Ok(Int32(product))
  }

  /** `getUsableSpace`: the data clusters times the cluster size. */
  function GetUsableSpace(fs: FileSystem): (r: Result<int>)
    requires Valid(fs)
    ensures r.Err? <==> fs.life.closed
    ensures r.Err? ==> r.fault == FileSystemClosed
    ensures r.Ok? ==> r.value == BootSector.DataClusterCount(fs.bs) * BootSector.BytesPerCluster(fs.bs)
  {
    var _ :- FsObject.CheckClosed(fs.life);
    Ok(BootSector.DataClusterCount(fs.bs) * BootSector.BytesPerCluster(fs.bs))
  }

  /** `getTotalSpace`: unknown, reported as -1. */
  function GetTotalSpace(fs: FileSystem): (r: Result<int>)
    ensures r.Err? <==> fs.life.closed
    ensures r.Err? ==> r.fault == FileSystemClosed
    ensures r.Ok? ==> r.value == -1
  {
    var _ :- FsObject.CheckClosed(fs.life);
    Ok(-1)
  }

  /** On a volume with a positive cluster size and data region, the free
      space is never negative and never more than the usable space, which
      in turn fits the data region. */
  lemma SpaceBounds(fs: FileSystem)
    requires Valid(fs) && !fs.life.closed
    requires BootSector.BytesPerCluster(fs.bs) > 0 && BootSector.DataSize(fs.bs) >= 0
    ensures 0 <= GetFreeSpace(fs).value <= GetUsableSpace(fs).value <= BootSector.DataSize(fs.bs)
  {
    var bpc := BootSector.BytesPerCluster(fs.bs);
    MulNonNegative(Fat.FreeCount(fs.fat), bpc);
    MulMonotone(Fat.FreeCount(fs.fat), BootSector.DataClusterCount(fs.bs), bpc);
  }

  // ---------------------------------------------------------- accessors

  /** `getRoot`: the long-name root directory, on an open file system. */
  function GetRoot(fs: FileSystem): (r: Result<LfnDirectory.LfnDir>)
    ensures r.Err? <==> fs.life.closed
    ensures r.Err? ==> r.fault == FileSystemClosed
    ensures r.Ok? ==> r.value == fs.root
  {
    var _ :- FsObject.CheckClosed(fs.life);
    Ok(fs.root)
  }

  /** `getBootSector`: the boot sector, on an open file system. */
  function GetBootSector(fs: FileSystem): (r: Result<BootSector.BootSector>)
    ensures r.Err? <==> fs.life.closed
    ensures r.Err? ==> r.fault == FileSystemClosed
    ensures r.Ok? ==> r.value == fs.bs
  {
    var _ :- FsObject.CheckClosed(fs.life);
    Ok(fs.bs)
  }

  /** A boot sector written out by `flush` reads back with the same
      label. */
  lemma LabelReread(bs: BootSector.BootSector, dev: Device.Device)
    requires Geometry(bs) && |dev.data| >= BootSector.SIZE && dev.data[..BootSector.SIZE] == bs.Data()
    ensures BootSector.Read(dev).Ok?
    ensures BootSector.VolumeLabel(BootSector.Read(dev).value) == BootSector.VolumeLabel(bs)
  {
    assert dev.data[BootSector.SECTORS_PER_CLUSTER_OFFSET] == bs.Data()[BootSector.SECTORS_PER_CLUSTER_OFFSET];
  }
}
