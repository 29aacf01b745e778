/** A 32-byte FAT directory entry (`FatDirectoryEntry`): the raw record,
    the dirty flag and the object flags, with the attribute, length, start
    cluster and name accessors that read and write fixed offsets of the
    record. */
module DirEntry {
  import opened Wrappers
  import opened Bytes
  import LittleEndian
  import ByteBuffer
  import FsObject
  import ShortName
  import AkaiPart

  const SIZE: int := 32
  const OFFSET_ATTRIBUTES: int := 0x0b
  const OFFSET_START_CLUSTER: int := 0x1a
  const OFFSET_FILE_SIZE: int := 0x1c
  const ENTRY_DELETED_MAGIC: int := 0xe5

  const F_READONLY: Byte := 0x01
  const F_HIDDEN: Byte := 0x02
  const F_SYSTEM: Byte := 0x04
  const F_VOLUME_ID: Byte := 0x08
  const F_DIRECTORY: Byte := 0x10
  const F_ARCHIVE: Byte := 0x20

  /** `AbstractDirectory::MAX_LABEL_LENGTH`. */
  const MAX_LABEL_LENGTH: int := 11

  type Record = s: seq<Byte> | |s| == SIZE witness Zeros(32)

  datatype Entry = Entry(data: Record, dirty: bool, obj: FsObject.Flags)

  /** `getFlags()`: the attribute byte. */
  function Flags(e: Entry): Byte
  {
    e.data[OFFSET_ATTRIBUTES]
  }

  /** The attribute byte as a bit vector, for the mask tests. */
  function FlagBits(e: Entry): bv8
  {
    Flags(e) as bv8
  }

  /** Some bit of `mask` is set in the attribute byte. */
  predicate HasFlag(e: Entry, mask: Byte)
  {
    FlagBits(e) & mask as bv8 != 0
  }

  /** `isLfnEntry()`: read-only, system, hidden and volume-id together. */
  predicate IsLfnEntry(e: Entry)
  {
    HasFlag(e, F_READONLY) && HasFlag(e, F_SYSTEM) && HasFlag(e, F_HIDDEN) && HasFlag(e, F_VOLUME_ID)
  }

  /** The directory and volume-id bits. */
  function Kind(e: Entry): bv8
  {
    FlagBits(e) & (F_DIRECTORY as bv8 | F_VOLUME_ID as bv8)
  }

  predicate IsVolumeLabel(e: Entry)
  {
    !IsLfnEntry(e) && Kind(e) == F_VOLUME_ID as bv8
  }

  predicate IsDirectory(e: Entry)
  {
    Kind(e) == F_DIRECTORY as bv8
  }

  predicate IsFile(e: Entry)
  {
    Kind(e) == 0
  }

  predicate IsDeleted(e: Entry)
  {
    e.data[0] == ENTRY_DELETED_MAGIC
  }

  /** An entry is at most one of file, directory and volume label; a long
      file name slot is none of them; and an entry that is not a long file
      name slot is one of them unless both kind bits are set. */
  lemma Classification(e: Entry)
    ensures !(IsFile(e) && IsDirectory(e)) && !(IsFile(e) && IsVolumeLabel(e))
    ensures !(IsDirectory(e) && IsVolumeLabel(e))
    ensures IsLfnEntry(e) ==> !IsFile(e) && !IsDirectory(e) && !IsVolumeLabel(e)
    ensures !IsLfnEntry(e) ==>
              (IsFile(e) || IsDirectory(e) || IsVolumeLabel(e) <==> Kind(e) != 0x18)
  {
  }

  /** `flags | mask` when setting, `flags & ~mask` when clearing. */
  function Update(flags: bv8, mask: bv8, on: bool): bv8
  {
    if on then flags | mask else flags & !mask
  }

  /** The record with another attribute byte. */
  function WithFlags(e: Entry, flags: bv8): (r: Entry)
    ensures FlagBits(r) == flags
    ensures forall i :: 0 <= i < SIZE && i != OFFSET_ATTRIBUTES ==> r.data[i] == e.data[i]
    ensures r.dirty == e.dirty && r.obj == e.obj
  {
    e.(data := e.data[OFFSET_ATTRIBUTES := flags as int])
  }

  /** `setFlag(mask, set)`: sets or clears the bits of `mask`; the record
      and the dirty flag change only when the tested bit state differs.
      The bit-level effect is stated by `SetFlagSets` and `SetFlagKeeps`. */
  function SetFlag(e: Entry, mask: Byte, on: bool): (r: Entry)
    ensures forall i :: 0 <= i < SIZE && i != OFFSET_ATTRIBUTES ==> r.data[i] == e.data[i]
    ensures r.dirty == (e.dirty || HasFlag(e, mask) != on)
    ensures r.obj == e.obj
  {
    if HasFlag(e, mask) == on then e
    else WithFlags(e, Update(FlagBits(e), mask as bv8, on)).(dirty := true)
  }

  /** The attribute byte after `setFlag`. */
  lemma SetFlagBits(e: Entry, mask: Byte, on: bool)
    ensures HasFlag(e, mask) == on ==> SetFlag(e, mask, on) == e
    ensures HasFlag(e, mask) != on ==> FlagBits(SetFlag(e, mask, on)) == Update(FlagBits(e), mask as bv8, on)
  {
  }

  /** After `setFlag(mask, set)` the mask test answers `set` (a zero mask
      can never test true). */
  lemma SetFlagSets(e: Entry, mask: Byte, on: bool)
    ensures on && mask != 0 ==> HasFlag(SetFlag(e, mask, on), mask)
    ensures !on ==> !HasFlag(SetFlag(e, mask, on), mask)
  {
    SetFlagBits(e, mask, on);
    UpdateSets(FlagBits(e), mask as bv8, on);
  }

  /** A second identical `setFlag` changes nothing. */
  lemma SetFlagIdempotent(e: Entry, mask: Byte, on: bool)
    ensures SetFlag(SetFlag(e, mask, on), mask, on) == SetFlag(e, mask, on)
  {
    var r := SetFlag(e, mask, on);
    SetFlagBits(e, mask, on);
    SetFlagBits(r, mask, on);
    UpdateSets(FlagBits(e), mask as bv8, on);
  }

  /** Setting or clearing one attribute bit leaves every attribute bit
      outside its mask as it was. */
  lemma SetFlagKeeps(e: Entry, mask: Byte, other: Byte, on: bool)
    requires mask as bv8 & other as bv8 == 0
    ensures HasFlag(SetFlag(e, mask, on), other) == HasFlag(e, other)
  {
    SetFlagBits(e, mask, on);
    UpdateKeeps(FlagBits(e), mask as bv8, other as bv8, on);
  }

  lemma UpdateSets(flags: bv8, mask: bv8, on: bool)
    ensures on && mask != 0 ==> Update(flags, mask, on) & mask != 0
    ensures !on ==> Update(flags, mask, on) & mask == 0
    ensures on == (Update(flags, mask, on) & mask != 0) ==> Update(Update(flags, mask, on), mask, on) == Update(flags, mask, on)
  {
  }

  lemma UpdateKeeps(flags: bv8, mask: bv8, other: bv8, on: bool)
    requires mask & other == 0
    ensures Update(flags, mask, on) & other == flags & other
  {
  }

  /** `read(buff, readOnly)`: an entry whose first byte is 0 ends the
      listing and leaves the buffer alone; otherwise the next 32 bytes
      become a clean entry. */
  function Read(b: ByteBuffer.Buffer, readOnly: bool): (r: (ByteBuffer.Buffer, Option<Entry>))
    requires 0 <= b.pos && b.Remaining() >= SIZE
    ensures r.1.None? <==> b.buf[b.pos] == 0
    ensures r.1.None? ==> r.0 == b
    ensures r.1.Some? ==> r.0 == b.(pos := b.pos + SIZE)
    ensures r.1.Some? ==> r.1.value.data == b.buf[b.pos..b.pos + SIZE]
    ensures r.1.Some? ==> !r.1.value.dirty && r.1.value.obj == FsObject.Create(readOnly)
  {
    if b.buf[b.pos] == 0 then (b, None)
    else
      var got := ByteBuffer.GetBytes(b, SIZE);
      (got.state, Some(Entry(got.value, false, FsObject.Create(readOnly))))
  }

  /** `n` single-byte puts of zero. */
  function PutNulls(b: ByteBuffer.Buffer, n: nat): (r: ByteBuffer.Buffer)
    requires 0 <= b.pos && b.pos + n <= b.Capacity()
    ensures r.lim == b.lim && r.pos == b.pos + n
    ensures r.buf == b.buf[..b.pos] + Zeros(n) + b.buf[b.pos + n..]
    decreases n
  {
    if n == 0 then b
    else
      var b1 := ByteBuffer.Put(b, 0);
      var r := PutNulls(b1, n - 1);
      assert r.buf == b.buf[..b.pos] + Zeros(n) + b.buf[b.pos + n..] by {
        assert b1.buf == b.buf[..b.pos] + [0] + b.buf[b.pos + 1..];
        assert b1.buf[..b1.pos] == b.buf[..b.pos] + [0];
        assert b1.buf[b1.pos + (n - 1)..] == b.buf[b.pos + n..];
        assert [0] + Zeros(n - 1) == Zeros(n);
      }
      r
  }

  /** `writeNullEntry(buff)`: 32 zero bytes at the position. */
  function WriteNullEntry(b: ByteBuffer.Buffer): (r: ByteBuffer.Buffer)
    requires 0 <= b.pos && b.pos + SIZE <= b.Capacity()
    ensures r.lim == b.lim && r.pos == b.pos + SIZE
    ensures r.buf == b.buf[..b.pos] + Zeros(SIZE) + b.buf[b.pos + SIZE..]
  {
    PutNulls(b, SIZE)
  }

  /** A null entry reads back as the end of the listing. */
  lemma NullEntryEndsListing(b: ByteBuffer.Buffer, readOnly: bool)
    requires 0 <= b.pos && b.pos + SIZE <= b.Capacity()
    ensures Read(WriteNullEntry(b).(pos := b.pos), readOnly).1.None?
  {
    var w := WriteNullEntry(b);
    assert w.buf[b.pos] == Zeros(SIZE)[0];
  }

  /** `write(buff)`: the record goes to the buffer and the entry becomes
      clean; a buffer smaller than one record takes only its capacity and
      the put throws, leaving the entry dirty. */
  function Write(e: Entry, b: ByteBuffer.Buffer): (r: (Partial<ByteBuffer.Buffer, ()>, Entry))
    requires 0 <= b.pos && b.pos + Min(SIZE, b.Capacity()) <= b.Capacity()
    ensures r.0.Done? <==> SIZE <= b.Capacity()
    ensures r.0.Done? ==> r.0.state.pos == b.pos + SIZE && r.0.state.lim == b.lim
    ensures r.0.Done? ==> r.0.state.buf == b.buf[..b.pos] + e.data + b.buf[b.pos + SIZE..]
    ensures r.1 == e.(dirty := e.dirty && r.0.Aborted?)
  {
    var put := ByteBuffer.PutBytes(b, e.data);
    (put, if put.Done? then e.(dirty := false) else e)
  }

  /** An entry written to a buffer and read back from the same position is
      the same record, clean, unless its first byte is 0. */
  lemma WriteThenRead(e: Entry, b: ByteBuffer.Buffer, readOnly: bool)
    requires 0 <= b.pos && b.pos + SIZE <= b.Capacity() && e.data[0] != 0
    ensures Write(e, b).0.Done?
    ensures Read(Write(e, b).0.state.(pos := b.pos), readOnly).1 == Some(Entry(e.data, false, FsObject.Create(readOnly)))
  {
    var w := Write(e, b).0.state;
    assert w.buf[b.pos..b.pos + SIZE] == e.data;
  }

  /** `create(directory)`: an all-zero record, with the directory bit for a
      directory; writable and clean. */
  function Create(directory: bool): (r: Entry)
    ensures IsDirectory(r) == directory && IsFile(r) == !directory && !IsLfnEntry(r)
    ensures GetLength(r) == 0 && GetStartCluster(r) == 0 && r.data[0] == 0
    ensures !r.dirty && r.obj == FsObject.Create(false)
  {
    var flags: Byte := if directory then F_DIRECTORY else 0;
    Entry(Zeros(SIZE)[OFFSET_ATTRIBUTES := flags], false, FsObject.Create(false))
  }

  /** `createVolumeLabel(text)`: the label's bytes from offset 0 and the
      volume-id attribute, which overwrites a twelfth label character.  The
      source asserts a non-empty label, and a label longer than the record
      overruns it. */
  function CreateVolumeLabel(text: Str): (r: Entry)
    requires 1 <= |text| <= SIZE
    ensures IsVolumeLabel(r) && Flags(r) == F_VOLUME_ID
    ensures forall i :: 0 <= i < |text| && i != OFFSET_ATTRIBUTES ==> r.data[i] == ByteOf(text[i])
    ensures forall i :: |text| <= i < SIZE && i != OFFSET_ATTRIBUTES ==> r.data[i] == 0
    ensures !r.dirty && r.obj == FsObject.Create(false)
  {
    var data := BytesOf(text) + Zeros(SIZE - |text|);
    Entry(data[OFFSET_ATTRIBUTES := F_VOLUME_ID], false, FsObject.Create(false))
  }

  /** The label bytes from `i` up to the first NUL, at most eleven. */
  function LabelChars(data: Record, i: nat): (r: Str)
    ensures |r| <= MAX_LABEL_LENGTH - i || (i >= MAX_LABEL_LENGTH && r == [])
    decreases MAX_LABEL_LENGTH - i
  {
    if i >= MAX_LABEL_LENGTH || data[i] == 0 then []
    else [CharOf(data[i])] + LabelChars(data, i + 1)
  }

  /** `getVolumeLabel()`: only a volume label has one. */
  function GetVolumeLabel(e: Entry): (r: Result<Str>)
    ensures r.Err? <==> !IsVolumeLabel(e)
    ensures r.Err? ==> r.fault == NotAVolumeLabel
    ensures r.Ok? ==> |r.value| <= MAX_LABEL_LENGTH
    ensures r.Ok? ==> forall j :: 0 <= j < |r.value| ==> r.value[j] != 0 as char
  {
    if !IsVolumeLabel(e) then Err(NotAVolumeLabel)
    else
      LabelCharsNoNul(e.data, 0);
      Ok(LabelChars(e.data, 0))
  }

  lemma {:induction false} LabelCharsNoNul(data: Record, i: nat)
    ensures forall j :: 0 <= j < |LabelChars(data, i)| ==> LabelChars(data, i)[j] != 0 as char
    decreases MAX_LABEL_LENGTH - i
  {
    if i < MAX_LABEL_LENGTH && data[i] != 0 {
      LabelCharsNoNul(data, i + 1);
      assert CharOf(data[i]) != 0 as char by {
        assert ByteOf(CharOf(data[i])) == data[i];
      }
    }
  }

  /** Reading from `i` a record that holds `text` from offset 0, followed
      by a NUL when it is shorter than eleven, gives the rest of it. */
  lemma {:induction false} LabelCharsOf(data: Record, text: Str, i: nat)
    requires |text| <= MAX_LABEL_LENGTH && i <= |text|
    requires forall j :: 0 <= j < |text| ==> text[j] != 0 as char && data[j] == ByteOf(text[j])
    requires |text| < MAX_LABEL_LENGTH ==> data[|text|] == 0
    ensures LabelChars(data, i) == text[i..]
    decreases MAX_LABEL_LENGTH - i
  {
    if i < |text| {
      assert data[i] != 0 by {
        assert CharOf(ByteOf(text[i])) == text[i];
      }
      LabelCharsOf(data, text, i + 1);
      assert CharOf(data[i]) == text[i];
      assert text[i..] == [text[i]] + text[i + 1..];
    }
  }

  /** A volume label without NUL characters reads back as its first eleven
      characters. */
  lemma LabelRoundTrip(text: Str)
    requires 1 <= |text| <= SIZE
    requires forall j :: 0 <= j < |text| ==> text[j] != 0 as char
    ensures GetVolumeLabel(CreateVolumeLabel(text)) == Ok(text[..Min(|text|, MAX_LABEL_LENGTH)])
  {
    var kept := text[..Min(|text|, MAX_LABEL_LENGTH)];
    var e := CreateVolumeLabel(text);
    LabelCharsOf(e.data, kept, 0);
  }

  /** `getLength()`: the unsigned 32-bit file size at offset 0x1c. */
  function GetLength(e: Entry): (n: int)
    ensures 0 <= n < UINT32_LIMIT
  {
    LittleEndian.GetUInt32(e.data, OFFSET_FILE_SIZE)
  }

  /** `setLength(length)`: stored with `setInt32`, which rejects values
      above INT_MAX and keeps the low 32 bits of the rest; only the four
      size bytes change, and the entry is not marked dirty. */
  function SetLength(e: Entry, length: int): (r: Result<Entry>)
    ensures r.Ok? <==> length <= INT_MAX
    ensures r.Err? ==> r.fault == ValueOutOfRange
    ensures r.Ok? ==> GetLength(r.value) == length % UINT32_LIMIT
    ensures r.Ok? ==> forall i :: 0 <= i < OFFSET_FILE_SIZE ==> r.value.data[i] == e.data[i]
    ensures r.Ok? ==> r.value.dirty == e.dirty && r.value.obj == e.obj
  {
    var data :- LittleEndian.SetInt32(e.data, OFFSET_FILE_SIZE, length);
    Ok(e.(data := data))
  }

  /** A length between 0 and INT_MAX reads back unchanged, and setting it
      keeps the name, attributes and start cluster. */
  lemma LengthRoundTrip(e: Entry, length: int)
    requires 0 <= length <= INT_MAX
    ensures SetLength(e, length).Ok?
    ensures GetLength(SetLength(e, length).value) == length
    ensures GetStartCluster(SetLength(e, length).value) == GetStartCluster(e)
    ensures Flags(SetLength(e, length).value) == Flags(e)
  {
    SmallMod(length, UINT32_LIMIT);
  }

  /** `getStartCluster()`: the unsigned 16-bit value at offset 0x1a. */
  function GetStartCluster(e: Entry): (c: int)
    ensures 0 <= c < 0x1_0000
  {
    LittleEndian.GetUInt16(e.data, OFFSET_START_CLUSTER)
  }

  /** `setStartCluster(startCluster)`: a `long` above INT_MAX is rejected;
      the rest is narrowed to `int` and stored with `setInt16`, which
      rejects anything outside 0..65535.  Only the two cluster bytes
      change. */
  function SetStartCluster(e: Entry, startCluster: int): (r: Result<Entry>)
    ensures r.Ok? <==> startCluster <= INT_MAX && 0 <= Int32(startCluster) < 0x1_0000
    ensures -0x8000_0000 <= startCluster ==> (r.Ok? <==> 0 <= startCluster < 0x1_0000)
    ensures r.Err? ==> r.fault == ValueOutOfRange
    ensures r.Ok? ==> GetStartCluster(r.value) == Int32(startCluster)
    ensures r.Ok? ==> forall i :: 0 <= i < SIZE && !(OFFSET_START_CLUSTER <= i < OFFSET_START_CLUSTER + 2) ==>
                        r.value.data[i] == e.data[i]
    ensures r.Ok? ==> r.value.dirty == e.dirty && r.value.obj == e.obj
  {
    if startCluster > INT_MAX then Err(ValueOutOfRange)
    else
      var data :- LittleEndian.SetInt16(e.data, OFFSET_START_CLUSTER, Int32(startCluster));
      Ok(e.(data := data))
  }

  /** `getShortName()`: a record starting with 0 has no name, and the
      two-argument constructor rejects the empty name part. */
  function GetShortName(e: Entry): (r: Result<ShortName.ShortName>)
    ensures r.Err? <==> e.data[0] == 0
    ensures r.Err? ==> r.fault == BadNameLength
    ensures r.Ok? ==> r.value.nameBytes[1..] == StrOf(e.data[1..11])
  {
    if e.data[0] == 0 then ShortName.Of([], [])
    else Ok(ShortName.Parse(e.data))
  }

  /** `setShortName(sn)`: the eleven name bytes, and the entry is dirty. */
  function SetShortName(e: Entry, sn: ShortName.ShortName): (r: Entry)
    ensures StrOf(r.data[..11]) == sn.nameBytes && r.data[11..] == e.data[11..]
    ensures r.dirty && r.obj == e.obj
  {
    e.(data := ShortName.Write(sn, e.data), dirty := true)
  }

  /** A short name stored in an entry reads back unchanged, unless its
      first byte is 0 (no name) or the 0x05 escape. */
  lemma ShortNameRoundTrip(e: Entry, sn: ShortName.ShortName)
    requires sn.nameBytes[0] != 0 as char && sn.nameBytes[0] as int != ShortName.KANJI_ESCAPE
    ensures GetShortName(SetShortName(e, sn)) == Ok(sn)
  {
    var r := SetShortName(e, sn);
    ShortName.ParseWrite(sn, e.data);
    assert r.data[0] != 0 by {
      assert StrOf(r.data[..11])[0] == CharOf(r.data[0]);
    }
  }

  /** `AkaiFatLfnDirectory::splitName(s)`: "." and ".." are names without
      extension; otherwise the text around the last dot. */
  function SplitName(s: Str): (r: (Str, Str))
    ensures s == "." || s == ".." ==> r == (s, [])
    ensures '.' !in s ==> r == (s, [])
    ensures s != "." && s != ".." && '.' in s ==> r.0 + ['.'] + r.1 == s && '.' !in r.1
  {
    if s == "." || s == ".." then (s, []) else ShortName.SplitAtLastDot(s)
  }

  /** The short-name text and the Akai part `setAkaiName(s)` stores: the
      first eight characters of the base name with the extension, and the
      rest of the base name (eight spaces when there is none). */
  function AkaiFields(s: Str): (r: (Str, Str))
    ensures var (base, ext) := SplitName(s);
            && r.0 == base[..Min(|base|, 8)] + (if ext == [] then [] else ['.'] + ext)
            && (|base| <= 8 ==> r.1 == ShortName.Spaces(8))
            && (|base| > 8 ==> r.1 == base[8..])
  {
    var (part1, ext) := SplitName(s);
    var part2 := if |part1| > 8 then part1[8..] else ShortName.Spaces(8);
    var part1 := if |part1| > 8 then part1[..8] else part1;
    var ext := if |ext| > 0 then ['.'] + ext else ext;
    (part1 + ext, part2)
  }

  /** `setAkaiName(s)`: writes the short name, then the Akai part.  Either
      constructor can throw; when the Akai part is rejected the short name
      is already written.  Only bytes 0..10 and 12..19 change, and the
      dirty flag is left alone. */
  function SetAkaiName(e: Entry, s: Str): (r: Partial<Entry, ()>)
    ensures r.state.dirty == e.dirty && r.state.obj == e.obj
    ensures r.state.data[11] == e.data[11] && r.state.data[20..] == e.data[20..]
    ensures r.Done? <==> ShortName.FromString(AkaiFields(s).0).Ok? && AkaiPart.New(AkaiFields(s).1).Ok?
    ensures ShortName.FromString(AkaiFields(s).0).Err? ==> r == Aborted(e, ShortName.FromString(AkaiFields(s).0).fault)
    ensures ShortName.FromString(AkaiFields(s).0).Ok? ==>
              StrOf(r.state.data[..11]) == ShortName.FromString(AkaiFields(s).0).value.nameBytes
    ensures r.Done? ==> StrOf(r.state.data[12..20]) == AkaiPart.New(AkaiFields(s).1).value.nameBytes
  {
    var fields := AkaiFields(s);
    StoreNames(e, ShortName.FromString(fields.0), AkaiPart.New(fields.1))
  }

  /** The two writes of `setAkaiName`, given the outcomes of the two
      constructors. */
  function StoreNames(e: Entry, sn: Result<ShortName.ShortName>, ap: Result<AkaiPart.AkaiPart>): (r: Partial<Entry, ()>)
    ensures r.state.dirty == e.dirty && r.state.obj == e.obj
    ensures r.state.data[11] == e.data[11] && r.state.data[20..] == e.data[20..]
    ensures r.Done? <==> sn.Ok? && ap.Ok?
    ensures sn.Err? ==> r == Aborted(e, sn.fault)
    ensures sn.Ok? ==> StrOf(r.state.data[..11]) == sn.value.nameBytes
    ensures r.Done? ==> StrOf(r.state.data[12..20]) == ap.value.nameBytes
  {
    match sn
    case Err(f) => Aborted(e, f)
    case Ok(name) =>
      var withName := ShortName.Write(name, e.data);
      match ap
      case Err(f) => Aborted(e.(data := withName), f)
      case Ok(part) =>
        var both := AkaiPart.Write(part, withName);
        assert both[..11] == withName[..11];
        Done(e.(data := both), ())
  }
}
