/** `AkaiFatLfnDirectoryEntry`: a named entry of a long-name directory.
    A name that is its own short name lives in the real 32-byte entry
    alone.  A longer name takes extra long-name slots in front of the real
    entry, thirteen characters each, the last part first.  A group of one
    real entry is read as an Akai name: the short name's base, then the
    Akai part, then the extension. */
module LfnEntry {
  import opened Wrappers
  import opened Bytes
  import StrUtil
  import LittleEndian
  import ShortName
  import AkaiPart
  import FsObject
  import DirEntry
  import Directory

  /** Characters of a name held by one long-name slot. */
  const CHARS_PER_SLOT: int := 13

  /** The attribute byte of a long-name slot: read-only, hidden, system
      and volume id. */
  const LFN_ATTRIBUTES: Byte := 0x0F

  /** Added to the ordinal of the slot holding the last part. */
  const LAST_FLAG: int := 0x40

  const DOT: Str := "."

  /** An entry of a long-name directory: the name it is known by, the
      real entry that stores it (an identity in the shared store), and its
      own lifecycle flags. */
  datatype Named = Named(fileName: Str, realEntry: Directory.Id, obj: FsObject.Flags)

  /** `totalEntrySize()`: one slot per started run of thirteen characters,
      plus the real entry. */
  function TotalEntrySize(n: nat): (r: nat)
    ensures r >= 1 && n <= CHARS_PER_SLOT * (r - 1)
    ensures n > 0 ==> CHARS_PER_SLOT * (r - 2) < n
  {
    n / 13 + 1 + (if n % 13 != 0 then 1 else 0)
  }

  /** The byte offset of character `j` of a slot, low byte first. */
  function CharOffset(j: nat): (o: nat)
    requires j < 13
    ensures 1 <= o <= 30
  {
    [1, 3, 5, 7, 9, 14, 16, 18, 20, 22, 24, 28, 30][j]
  }

  /** The character a slot holding `sub` stores at position `j`: the
      text's own, then a NUL, then 0xFF. */
  function SlotChar(sub: Str, j: nat): (b: Byte)
  {
    if j < |sub| then ByteOf(sub[j]) else if j == |sub| then 0 else 0xFF
  }

  /** Byte `i` of the record `createPart` builds. */
  function SlotByte(sub: Str, first: Byte, sum: Byte, i: nat): (b: Byte)
  {
    if i == 0 then first
    else if i == 11 then LFN_ATTRIBUTES
    else if i == 13 then sum
    else if 1 <= i <= 9 && i % 2 == 1 then SlotChar(sub, (i - 1) / 2)
    else if 14 <= i <= 24 && i % 2 == 0 then SlotChar(sub, 5 + (i - 14) / 2)
    else if i == 28 || i == 30 then SlotChar(sub, 11 + (i - 28) / 2)
    else 0
  }

  function SlotData(sub: Str, first: Byte, sum: Byte): DirEntry.Record
  {
    seq(32, i requires 0 <= i < 32 => SlotByte(sub, first, sum, i))
  }

  /** `createPart(subName, ordinal, checkSum, isLast)`: a fresh long-name
      slot.  Byte 0 is the ordinal, plus 0x40 on the last part, and is
      refused when it is not a byte; each of the thirteen characters is a
      16-bit unit with a zero high byte; byte 11 marks the slot; byte 13
      holds the low byte of the checksum.  Only the first thirteen
      characters of `subName` are used.  The source copies them through
      `c_str()` before overwriting the tail, which reads past the string's
      end for a short part; only the overwritten values are modelled. */
  function CreatePart(sub: Str, ordinal: int, checkSum: int, isLast: bool): (r: Result<DirEntry.Entry>)
    ensures r.Ok? <==> 0 <= ordinal + (if isLast then LAST_FLAG else 0) < 0x100
    ensures r.Err? ==> r.fault == ValueOutOfRange
    ensures r.Ok? ==>
              var d := r.value.data;
              && d[0] == ordinal + (if isLast then LAST_FLAG else 0)
              && d[DirEntry.OFFSET_ATTRIBUTES] == LFN_ATTRIBUTES && d[12] == 0
              && d[13] == checkSum % 0x100 && d[26] == 0 && d[27] == 0
              && (forall j :: 0 <= j < 13 ==> d[CharOffset(j)] == SlotChar(sub, j) && d[CharOffset(j) + 1] == 0)
    ensures r.Ok? ==> !r.value.dirty && r.value.obj == FsObject.Create(false)
  {
    var first := ordinal + (if isLast then LAST_FLAG else 0);
    if !(0 <= first < 0x100) then Err(ValueOutOfRange)
    else
      var d := SlotData(sub, first, checkSum % 0x100);
      SlotLayout(sub, first, checkSum % 0x100);
      Ok(DirEntry.Entry(d, false, FsObject.Create(false)))
  }

  /** Where each character of a slot lands. */
  lemma SlotLayout(sub: Str, first: Byte, sum: Byte)
    ensures forall j :: 0 <= j < 13 ==>
              SlotData(sub, first, sum)[CharOffset(j)] == SlotChar(sub, j) && SlotData(sub, first, sum)[CharOffset(j) + 1] == 0
  {
    var d := SlotData(sub, first, sum);
    forall j | 0 <= j < 13
      ensures d[CharOffset(j)] == SlotChar(sub, j) && d[CharOffset(j) + 1] == 0
    {
      if j < 5 {
        assert CharOffset(j) == 1 + 2 * j;
      } else if j < 11 {
        assert CharOffset(j) == 14 + 2 * (j - 5);
      } else {
        assert CharOffset(j) == 28 + 2 * (j - 11);
      }
    }
  }

  /** The characters a long-name slot holds, as `getLfnPart` is taken to
      read them: the low bytes of its thirteen 16-bit units, up to the
      first zero unit.  `FatDirectoryEntry::getLfnPart` is not part of
      this model; this follows the long-name layout `createPart`
      writes. */
  function LfnPart(e: DirEntry.Entry): (r: Str)
    ensures |r| <= CHARS_PER_SLOT
  {
    Units(e.data, 0)
  }

  function Units(d: DirEntry.Record, j: nat): (r: Str)
    requires j <= 13
    ensures |r| <= 13 - j
    decreases 13 - j
  {
    if j == 13 then []
    else
      var u := LittleEndian.GetUInt16(d, CharOffset(j));
      if u == 0 then [] else [CharOf(u % 0x100)] + Units(d, j + 1)
  }

  predicate NoNul(s: Str)
  {
    forall j :: 0 <= j < |s| ==> s[j] != 0 as char
  }

  /** A slot made from a text without NUL characters reads back as the
      text's first thirteen characters. */
  lemma PartReadsBack(sub: Str, ordinal: int, checkSum: int, isLast: bool)
    requires NoNul(sub) && CreatePart(sub, ordinal, checkSum, isLast).Ok?
    ensures LfnPart(CreatePart(sub, ordinal, checkSum, isLast).value) == sub[..Min(|sub|, 13)]
  {
    var e := CreatePart(sub, ordinal, checkSum, isLast).value;
    UnitsOf(e.data, sub, 0);
  }

  lemma {:induction false} UnitsOf(d: DirEntry.Record, sub: Str, j: nat)
    requires NoNul(sub) && j <= Min(|sub|, 13)
    requires forall i :: 0 <= i < 13 ==> d[CharOffset(i)] == SlotChar(sub, i) && d[CharOffset(i) + 1] == 0
    ensures Units(d, j) == sub[j..Min(|sub|, 13)]
    decreases 13 - j
  {
    if j < Min(|sub|, 13) {
      assert d[CharOffset(j)] == ByteOf(sub[j]) && d[CharOffset(j) + 1] == 0;
      assert LittleEndian.GetUInt16(d, CharOffset(j)) == ByteOf(sub[j]) != 0;
      UnitsOf(d, sub, j + 1);
      assert sub[j..Min(|sub|, 13)] == [sub[j]] + sub[j + 1..Min(|sub|, 13)];
    } else if j < 13 {
      assert d[CharOffset(j)] == 0 && d[CharOffset(j) + 1] == 0;
    }
  }

  /** `substr(pos, count)`: at most `count` characters from `pos`. */
  function Substr(s: Str, pos: nat, count: nat): (r: Str)
    requires pos <= |s|
  {
    s[pos..Min(pos + count, |s|)]
  }

  /** The slot at index `i` of the compact form of `name` in `k` parts:
      index 0 holds the last part and carries the last flag, index `i` the
      part `k - 1 - i` with ordinal `k - i`.  A middle part is cut with
      `substr(j * 13, j * 13 + 13)`, whose second argument is a count, not
      an end; since a slot keeps only thirteen characters this has no
      effect on the stored name. */
  function Slot(name: Str, k: nat, i: nat, sum: int): (e: DirEntry.Entry)
    requires i < k && CHARS_PER_SLOT * (k - 1) < |name| && k + LAST_FLAG < 0x100
  {
    CreatePart(SlotText(name, k, i), k - i, sum, i == 0).value
  }

  /** The text handed to the part of slot `i`. */
  function SlotText(name: Str, k: nat, i: nat): Str
    requires i < k && CHARS_PER_SLOT * (k - 1) < |name|
  {
    var j := k - 1 - i;
    if i == 0 then name[13 * j..] else Substr(name, 13 * j, 13 * j + 13)
  }

  /** The real entry's name is "." or "..". */
  predicate IsDotEntry(sn: ShortName.ShortName)
  {
    ShortName.Equals(sn, ShortName.Dot()) || ShortName.Equals(sn, ShortName.DotDot())
  }

  /** The name is its own short name, so needs no long-name slots. */
  predicate IsShortName(fileName: Str)
  {
    ShortName.CanConvert(fileName) && ShortName.AsSimpleString(ShortName.Get(fileName).value) == fileName
  }

  /** `compactForm()`: the entries that store a named entry.  A dot entry
      is its real entry; a name that is its own short name is written into
      the real entry, which is the only one; any other name is split into
      long-name slots followed by the real entry, all slots carrying the
      checksum of the real entry's short name.  `ShortName::checkSum` is
      not part of this model and is the parameter `checkSum`.  An empty
      name that is not a short name makes the source index past its
      vector, and is excluded. */
  function CompactForm(fileName: Str, realEntry: DirEntry.Entry, checkSum: ShortName.ShortName -> int)
    : (r: Result<seq<DirEntry.Entry>>)
    requires fileName != []
    ensures DirEntry.GetShortName(realEntry).Err? ==> r == Err(DirEntry.GetShortName(realEntry).fault)
    ensures DirEntry.GetShortName(realEntry).Ok? && IsDotEntry(DirEntry.GetShortName(realEntry).value) ==> r == Ok([realEntry])
    ensures DirEntry.GetShortName(realEntry).Ok? && !IsDotEntry(DirEntry.GetShortName(realEntry).value) && IsShortName(fileName) ==>
              r == Ok([DirEntry.SetShortName(realEntry, ShortName.Get(fileName).value)])
    ensures DirEntry.GetShortName(realEntry).Ok? && !IsDotEntry(DirEntry.GetShortName(realEntry).value) && !IsShortName(fileName) ==>
              && (r.Ok? <==> TotalEntrySize(|fileName|) - 1 + LAST_FLAG < 0x100)
              && (r.Err? ==> r.fault == ValueOutOfRange)
              && (r.Ok? ==> LongForm(fileName, realEntry, checkSum(DirEntry.GetShortName(realEntry).value), r.value))
  {
    var sn :- DirEntry.GetShortName(realEntry);
    if IsDotEntry(sn) then Ok([realEntry])
    else if IsShortName(fileName) then Ok([DirEntry.SetShortName(realEntry, ShortName.Get(fileName).value)])
    else
      var k := TotalEntrySize(|fileName|) - 1;
      if k + LAST_FLAG >= 0x100 then Err(ValueOutOfRange)
      else
        var slots := seq(k, i requires 0 <= i < k => Slot(fileName, k, i, checkSum(sn)));
        LongFormOf(fileName, realEntry, checkSum(sn), slots);
        Ok(slots + [realEntry])
  }

  /** What the long form of a name looks like: one slot per started
      thirteen characters and the real entry last; slot `i` is a long-name
      slot with ordinal `k - i`, only the first flagged as last, each with
      the checksum. */
  predicate LongForm(fileName: Str, realEntry: DirEntry.Entry, sum: int, es: seq<DirEntry.Entry>)
  {
    && |es| == TotalEntrySize(|fileName|) && es[|es| - 1] == realEntry
    && forall i :: 0 <= i < |es| - 1 ==>
         && es[i].data[DirEntry.OFFSET_ATTRIBUTES] == LFN_ATTRIBUTES && es[i].data[13] == sum % 0x100
         && es[i].data[0] == |es| - 1 - i + (if i == 0 then LAST_FLAG else 0)
  }

  lemma LongFormOf(fileName: Str, realEntry: DirEntry.Entry, sum: int, slots: seq<DirEntry.Entry>)
    requires fileName != []
    requires var k := TotalEntrySize(|fileName|) - 1;
             k + LAST_FLAG < 0x100 && |slots| == k && forall i :: 0 <= i < k ==> slots[i] == Slot(fileName, k, i, sum)
    ensures LongForm(fileName, realEntry, sum, slots + [realEntry])
  {
  }

  /** The name held by the long-name slots `group[..m]`, read from slot
      `m - 1` down to slot 0. */
  function Joined(group: seq<DirEntry.Entry>, m: nat): (r: Str)
    requires m <= |group|
  {
    if m == 0 then [] else LfnPart(group[m - 1]) + Joined(group, m - 1)
  }

  /** `extract(dir, offset, len)` on the entries `group` from `offset`:
      the last is the real entry.  A group of one is an Akai 16.3 name:
      the short name's base, the Akai part and the extension, each trimmed
      by `AkaiStrUtil::trim_copy`, the extension after a dot when there is
      one.  Otherwise the slots' characters from the one before the real
      entry back to the first, trimmed by `AkaiStrUtil::trim`.  That
      helper is not part of this model: `ws` is the set `trim` strips and
      `wsCopy` the set `trim_copy` strips. */
  function Extract(group: seq<DirEntry.Entry>, ws: set<Char8>, wsCopy: set<Char8>): (r: Result<Str>)
    requires |group| >= 1
    ensures |group| > 1 ==> r == Ok(StrUtil.Trim(Joined(group, |group| - 1), ws))
    ensures |group| == 1 && DirEntry.GetShortName(group[0]).Err? ==> r == Err(DirEntry.GetShortName(group[0]).fault)
  {
    if |group| == 1 then ShortForm(group[0], ws, wsCopy)
    else Ok(StrUtil.Trim(Joined(group, |group| - 1), ws))
  }

  /** The name of an entry without long-name slots: the Akai 16.3 name. */
  function ShortForm(realEntry: DirEntry.Entry, ws: set<Char8>, wsCopy: set<Char8>): (r: Result<Str>)
    ensures DirEntry.GetShortName(realEntry).Err? ==> r == Err(DirEntry.GetShortName(realEntry).fault)
  {
    var sn :- DirEntry.GetShortName(realEntry);
    var shortName := ShortName.AsSimpleString(sn);
    var ap :- AkaiPart.Parse(realEntry.data);
    var akaiPart := StrUtil.Trim(AkaiPart.AsSimpleString(ap, ws), wsCopy);
    var (base, ext) := DirEntry.SplitName(shortName);
    var part1 := StrUtil.Trim(base, wsCopy);
    var ext1 := StrUtil.Trim(ext, wsCopy);
    Ok(part1 + akaiPart + (if ext1 != [] then DOT + ext1 else []))
  }

  /** The long form of a name without NUL characters reads back as the
      name, trimmed: `extract` undoes `compactForm`. */
  lemma ExtractCompactForm(fileName: Str, realEntry: DirEntry.Entry, checkSum: ShortName.ShortName -> int, ws: set<Char8>, wsCopy: set<Char8>)
    requires fileName != [] && NoNul(fileName)
    requires DirEntry.GetShortName(realEntry).Ok? && !IsDotEntry(DirEntry.GetShortName(realEntry).value) && !IsShortName(fileName)
    requires CompactForm(fileName, realEntry, checkSum).Ok?
    ensures Extract(CompactForm(fileName, realEntry, checkSum).value, ws, wsCopy) == Ok(StrUtil.Trim(fileName, ws))
  {
    CompactChunks(fileName, realEntry, checkSum);
    ExtractChunks(fileName, CompactForm(fileName, realEntry, checkSum).value, ws, wsCopy);
  }

  /** The slots of `group`, all but its last entry, read back as the
      thirteen-character chunks of `fileName`, the first slot holding the
      last chunk. */
  predicate Chunked(fileName: Str, group: seq<DirEntry.Entry>)
  {
    var k := |group| - 1;
    && 1 <= k && CHARS_PER_SLOT * (k - 1) < |fileName| <= CHARS_PER_SLOT * k
    && forall i {:trigger Chunk(fileName, k, i)} :: 0 <= i < k ==> LfnPart(group[i]) == Chunk(fileName, k, i)
  }

  /** Slots that read back as the chunks of a name extract as the name. */
  lemma ExtractChunks(fileName: Str, group: seq<DirEntry.Entry>, ws: set<Char8>, wsCopy: set<Char8>)
    requires Chunked(fileName, group)
    ensures Extract(group, ws, wsCopy) == Ok(StrUtil.Trim(fileName, ws))
  {
    var k := |group| - 1;
    JoinedSlots(fileName, k, group, k, 0);
    assert fileName[13 * 0..] == fileName;
  }

  /** Each slot of a long form reads back as its chunk of the name. */
  lemma CompactChunks(fileName: Str, realEntry: DirEntry.Entry, checkSum: ShortName.ShortName -> int)
    requires fileName != [] && NoNul(fileName)
    requires DirEntry.GetShortName(realEntry).Ok? && !IsDotEntry(DirEntry.GetShortName(realEntry).value) && !IsShortName(fileName)
    requires CompactForm(fileName, realEntry, checkSum).Ok?
    ensures Chunked(fileName, CompactForm(fileName, realEntry, checkSum).value)
  {
    var group := CompactForm(fileName, realEntry, checkSum).value;
    var k := |group| - 1;
    var sum := checkSum(DirEntry.GetShortName(realEntry).value);
    assert k == TotalEntrySize(|fileName|) - 1 && k >= 1;
    assert forall i :: 0 <= i < k ==> group[i] == Slot(fileName, k, i, sum);
    forall i | 0 <= i < k ensures LfnPart(group[i]) == Chunk(fileName, k, i) {
      SlotReads(fileName, k, i, sum);
    }
  }

  /** Part `k - 1 - i` of `name` cut in thirteen-character chunks; the
      last part is the rest of the name. */
  function Chunk(name: Str, k: nat, i: nat): Str
    requires i < k && CHARS_PER_SLOT * (k - 1) < |name|
  {
    var j := k - 1 - i;
    if i == 0 then name[13 * j..] else name[13 * j..13 * j + 13]
  }

  /** Slot `i` reads back as its thirteen-character chunk of the name,
      or the rest of the name for the slot holding the last part. */
  lemma SlotReads(name: Str, k: nat, i: nat, sum: int)
    requires NoNul(name) && CHARS_PER_SLOT * (k - 1) < |name| <= CHARS_PER_SLOT * k && k + LAST_FLAG < 0x100
    requires i < k
    ensures LfnPart(Slot(name, k, i, sum)) == Chunk(name, k, i)
  {
    var sub := SlotText(name, k, i);
    TextChunk(name, k, i);
    PartReadsBack(sub, k - i, sum, i == 0);
  }

  lemma TextChunk(name: Str, k: nat, i: nat)
    requires NoNul(name) && CHARS_PER_SLOT * (k - 1) < |name| <= CHARS_PER_SLOT * k
    requires i < k
    ensures var j := k - 1 - i;
            var sub := SlotText(name, k, i);
            NoNul(sub) && sub[..Min(|sub|, 13)] == Chunk(name, k, i)
  {
    var j := k - 1 - i;
    var sub := SlotText(name, k, i);
    var chunk := Chunk(name, k, i);
    assert NoNul(sub) by {
      forall x | 0 <= x < |sub| ensures sub[x] != 0 as char {
        assert sub[x] == name[13 * j + x];
      }
    }
    if i == 0 {
      assert |sub| <= 13 && sub[..|sub|] == sub;
    } else {
      assert 13 <= |sub| && sub[..13] == chunk;
    }
  }

  /** The slots `group[..m]` of a long form in `k` parts hold the name
      from part `k - m` on. */
  lemma {:induction false} JoinedSlots(name: Str, k: nat, group: seq<DirEntry.Entry>, m: nat, from: nat)
    requires CHARS_PER_SLOT * (k - 1) < |name| <= CHARS_PER_SLOT * k
    requires 1 <= m <= k < |group| && forall i {:trigger Chunk(name, k, i)} :: 0 <= i < k ==> LfnPart(group[i]) == Chunk(name, k, i)
    requires from == CHARS_PER_SLOT * (k - m)
    ensures Joined(group, m) == name[from..]
  {
    var part := LfnPart(group[m - 1]);
    assert Joined(group, m) == part + Joined(group, m - 1);
    if m == 1 {
      assert part == name[from..] by {
        assert part == Chunk(name, k, m - 1);
      }
      assert Joined(group, 0) == [];
    } else {
      assert part == name[from..from + 13] by {
        assert part == Chunk(name, k, m - 1);
      }
      JoinedSlots(name, k, group, m - 1, from + 13);
      SplitSuffix(name, from, from + 13);
    }
  }

  lemma SplitSuffix(s: Str, a: nat, b: nat)
    requires a <= b <= |s|
    ensures s[a..] == s[a..b] + s[b..]
  {
  }

  /** `getAkaiPart()`: nothing for a directory, else the Akai part parsed
      from the real entry, trimmed by `AkaiStrUtil::trim` (the set
      `ws`). */
  function GetAkaiPart(realEntry: DirEntry.Entry, ws: set<Char8>): (r: Result<Str>)
    ensures DirEntry.IsDirectory(realEntry) ==> r == Ok([])
    ensures r.Ok? ==> |r.value| <= AkaiPart.FIELD_LENGTH
  {
    if DirEntry.IsDirectory(realEntry) then Ok([])
    else
      var ap :- AkaiPart.Parse(realEntry.data);
      Ok(AkaiPart.AsSimpleString(ap, ws))
  }

  /** `setAkaiPart(s)`: a directory is left alone; otherwise the Akai part
      is built, which can fail, and written to bytes 12..19.  The entry is
      not marked dirty. */
  function SetAkaiPart(realEntry: DirEntry.Entry, s: Str): (r: Result<DirEntry.Entry>)
    ensures DirEntry.IsDirectory(realEntry) ==> r == Ok(realEntry)
    ensures !DirEntry.IsDirectory(realEntry) ==> (r.Ok? <==> AkaiPart.New(s).Ok?)
    ensures r.Ok? ==> r.value.dirty == realEntry.dirty && r.value.obj == realEntry.obj
    ensures r.Ok? ==> r.value.data[..AkaiPart.FIELD_OFFSET] == realEntry.data[..AkaiPart.FIELD_OFFSET]
    ensures r.Ok? ==> r.value.data[AkaiPart.FIELD_OFFSET + AkaiPart.FIELD_LENGTH..] == realEntry.data[AkaiPart.FIELD_OFFSET + AkaiPart.FIELD_LENGTH..]
  {
    if DirEntry.IsDirectory(realEntry) then Ok(realEntry)
    else
      var ap :- AkaiPart.New(s);
      Ok(realEntry.(data := AkaiPart.Write(ap, realEntry.data)))
  }

  /** An Akai part set on a file entry reads back, under the conditions
      of the Akai part's own round trip. */
  lemma AkaiPartRoundTrip(realEntry: DirEntry.Entry, p: Str, ws: set<Char8>)
    requires !DirEntry.IsDirectory(realEntry) && AkaiPart.New(p).Ok?
    requires AkaiPart.IsValidAkaiPart(p) && (|p| == AkaiPart.FIELD_LENGTH || ' ' in AkaiPart.AkaiValidChars)
    requires ' ' in ws && (p != [] ==> p[0] !in ws && p[|p| - 1] !in ws)
    ensures SetAkaiPart(realEntry, p).Ok? && GetAkaiPart(SetAkaiPart(realEntry, p).value, ws) == Ok(p)
  {
    var e := SetAkaiPart(realEntry, p).value;
    assert e.data[DirEntry.OFFSET_ATTRIBUTES] == realEntry.data[DirEntry.OFFSET_ATTRIBUTES];
    assert !DirEntry.IsDirectory(e) by {
      assert DirEntry.Flags(e) == DirEntry.Flags(realEntry);
    }
    AkaiPart.RoundTrip(p, realEntry.data, ws);
  }

  /** `getAkaiName()`: the short name split at its last dot, with the
      Akai part between base and extension; a dot ends up in the name
      whenever the short name has one. */
  function GetAkaiName(realEntry: DirEntry.Entry, ws: set<Char8>): (r: Result<Str>)
    ensures GetAkaiPart(realEntry, ws).Err? <==> r.Err?
    ensures r.Ok? ==>
              var shortName := ShortName.AsSimpleString(ShortName.Parse(realEntry.data));
              var akaiPart := GetAkaiPart(realEntry, ws).value;
              && ('.' !in shortName ==> r.value == shortName + akaiPart)
              && ('.' in shortName ==>
                    var (base, ext) := ShortName.SplitAtLastDot(shortName);
                    r.value == base + akaiPart + DOT + ext)
  {
    var shortName := ShortName.AsSimpleString(ShortName.Parse(realEntry.data));
    var akaiPart :- GetAkaiPart(realEntry, ws);
    match StrUtil.LastIndexOf(shortName, '.')
    case None => Ok(shortName + akaiPart)
    case Some(dot) => Ok(shortName[..dot] + akaiPart + DOT + shortName[dot + 1..])
  }

  /** An Akai part set on a file entry shows up in its Akai name, between
      the short name's base and its extension. */
  lemma AkaiNameHoldsPart(realEntry: DirEntry.Entry, p: Str, ws: set<Char8>)
    requires !DirEntry.IsDirectory(realEntry) && AkaiPart.New(p).Ok?
    requires AkaiPart.IsValidAkaiPart(p) && (|p| == AkaiPart.FIELD_LENGTH || ' ' in AkaiPart.AkaiValidChars)
    requires ' ' in ws && (p != [] ==> p[0] !in ws && p[|p| - 1] !in ws)
    ensures SetAkaiPart(realEntry, p).Ok?
    ensures var shortName := ShortName.AsSimpleString(ShortName.Parse(realEntry.data));
            var r := GetAkaiName(SetAkaiPart(realEntry, p).value, ws);
            && ('.' !in shortName ==> r == Ok(shortName + p))
            && ('.' in shortName ==>
                  var (base, ext) := ShortName.SplitAtLastDot(shortName);
                  r == Ok(base + p + DOT + ext))
  {
    var e := SetAkaiPart(realEntry, p).value;
    AkaiPartRoundTrip(realEntry, p, ws);
    assert e.data[..11] == realEntry.data[..11] by {
      assert e.data[..11] == e.data[..AkaiPart.FIELD_OFFSET][..11];
      assert realEntry.data[..11] == realEntry.data[..AkaiPart.FIELD_OFFSET][..11];
    }
    ShortNameFromFields(e.data, realEntry.data);
  }

  /** The short name is read from the first eleven bytes only. */
  lemma ShortNameFromFields(a: DirEntry.Record, b: DirEntry.Record)
    requires a[..11] == b[..11]
    ensures ShortName.Parse(a) == ShortName.Parse(b)
  {
    assert forall i :: 0 <= i < 11 ==> a[i] == a[..11][i] && b[i] == b[..11][i];
  }

  /** The constructor for a new name: a fresh real entry, a directory's
      when `directory` is set, given the Akai name by `setAkaiName`, whose
      exception the constructor passes on.  The new entry object is valid
      and writable. */
  function NewReal(name: Str, directory: bool): (r: Result<DirEntry.Entry>)
    ensures r.Ok? <==> DirEntry.SetAkaiName(DirEntry.Create(directory), name).Done?
    ensures r.Ok? ==> DirEntry.IsDirectory(r.value) == directory && DirEntry.IsFile(r.value) == !directory
    ensures r.Ok? ==> !DirEntry.IsLfnEntry(r.value) && !r.value.dirty && r.value.obj == FsObject.Create(false)
    ensures r.Ok? ==> DirEntry.GetLength(r.value) == 0 && DirEntry.GetStartCluster(r.value) == 0
    ensures r.Ok? ==> StrOf(r.value.data[..11]) == ShortName.FromString(DirEntry.AkaiFields(name).0).value.nameBytes
  {
    var e := DirEntry.Create(directory);
    match DirEntry.SetAkaiName(e, name)
    case Aborted(_, f) => Err(f)
    case Done(named, _) =>
      SameTail(e, named);
      Ok(named)
  }

  /** Entries that agree from byte 11 on agree on kind, length and start
      cluster. */
  lemma SameTail(a: DirEntry.Entry, b: DirEntry.Entry)
    requires a.data[11] == b.data[11] && a.data[20..] == b.data[20..]
    ensures DirEntry.Flags(a) == DirEntry.Flags(b)
    ensures DirEntry.GetLength(a) == DirEntry.GetLength(b) && DirEntry.GetStartCluster(a) == DirEntry.GetStartCluster(b)
  {
    assert forall i :: 20 <= i < 32 ==> a.data[i] == a.data[20..][i - 20] && b.data[i] == b.data[20..][i - 20];
  }

  /** `getName()`: the name, for a valid entry. */
  function GetName(n: Named): (r: Result<Str>)
    ensures r.Ok? <==> n.obj.valid
    ensures r.Ok? ==> r.value == n.fileName
    ensures r.Err? ==> r.fault == NotValid
  {
    var _ :- FsObject.CheckValid(n.obj);
    Ok(n.fileName)
  }

  /** `setHiddenFlag`, `setSystemFlag`, `setReadOnlyFlag` and
      `setArchiveFlag`: the entry must be writable, then the attribute bit
      of `mask` in its real entry is set or cleared, the other bits left
      alone. */
  function SetFlag(n: Named, realEntry: DirEntry.Entry, mask: Byte, on: bool): (r: Result<DirEntry.Entry>)
    requires mask in {DirEntry.F_HIDDEN, DirEntry.F_SYSTEM, DirEntry.F_READONLY, DirEntry.F_ARCHIVE}
    ensures r.Err? <==> FsObject.CheckWritable(n.obj).Err?
    ensures r.Err? ==> r == Err(FsObject.CheckWritable(n.obj).fault)
    ensures r.Ok? ==> DirEntry.HasFlag(r.value, mask) == on
    ensures r.Ok? ==> forall other: Byte {:trigger DirEntry.HasFlag(realEntry, other)} ::
                        mask as bv8 & other as bv8 == 0 ==> DirEntry.HasFlag(r.value, other) == DirEntry.HasFlag(realEntry, other)
  {
    var _ :- FsObject.CheckWritable(n.obj);
    DirEntry.SetFlagSets(realEntry, mask, on);
    forall other: Byte | mask as bv8 & other as bv8 == 0
      ensures DirEntry.HasFlag(DirEntry.SetFlag(realEntry, mask, on), other) == DirEntry.HasFlag(realEntry, other)
    {
      DirEntry.SetFlagKeeps(realEntry, mask, other, on);
    }
    Ok(DirEntry.SetFlag(realEntry, mask, on))
  }
}
