# akaifat FAT16 engine, modelled in Dafny

This project models the FAT16 engine of akaifat. akaifat is a C++ library that reads and writes the FAT16 volumes of Akai samplers, whose short names carry an extra "Akai part". The model covers these layers:

- **Bytes.** The little-endian helpers, the byte buffers, and 512-byte sectors (`Sector`) read from and written to a block device.
- **Boot sector.** Its fields, setters and derived geometry: FAT offsets, root directory offset, data area and cluster count.
- **FAT.** The table (`Fat`) with reading, writing, chain walking, allocation and comparison of copies.
- **Cluster chains.** `ClusterChain` and the byte I/O over a chain.
- **Directory entries.** The 32-byte entries (`DirEntry`), short names (`ShortName`), Akai parts (`AkaiPart`) and long-name entries (`LfnEntry`).
- **Directories.** The directory common to both kinds (`AbstractDirectory`, here `Directory`), the fixed root table (`RootDirectory`), cluster-chain directories (`ChainDirectory`, including the creation of a sub-directory), and the long-name directory (`LfnDirectory`). The long-name directory keeps the name index and the set of used names.
- **Files.** Files (`FatFile`).
- **The file system.** `FileSystem`: mount, label, flush, close and space accounting.
- **Formatter.** The formatter's geometry arithmetic (`Formatter`).

Each module is a set of pure functions, with methods where the composition is heavy. Each member carries a contract, and the partner lemmas relate operations:

- read-back after write;
- round trips, e.g. `extract` of `compactForm`, and a directory image read back;
- "add then get", "add then remove", "unlink then link";
- frame properties ("nothing else changes").

Failure handling follows the source:

- **Exceptions** become `Result` failures naming a `Fault`.
- **Partial updates.** Where the source changes state and then throws, the result is a `Partial` that carries the state left behind: `set8` on a boot-sector text field, `setChainLength`, `allocNew`, `setAkaiName`, and the file system's flush after some FAT copies were written.
- **Undefined behaviour** becomes a `requires`. This covers an index outside a vector, a `size_t` underflow and a null dereference.

Shared pointers to directory entries are modelled as a heap: a `map` from ids to entries, held by the directory listing, the name index and the files alike. Aliasing among them therefore behaves as in the source.

Where the source does something evidently unintended, both behaviours are modelled. Members named `...AsWritten` (or carrying a `Stores` mode of `AsWritten`) follow the code as written. The corrected members state the intended property. Their rows in "## Model" say "corrected"; composites that build on them (add, remove, rename, move) have an as-written partner too. See "## Findings".

## Model

| member | source | states |
|---|---|---|
| LittleEndian.GetUInt8 | src/main/fat/LittleEndian.hpp:11-13 | the result is the stored byte, in [0, 2^8) |
| LittleEndian.GetUInt16 | src/main/fat/LittleEndian.hpp:15-19 | the result is in [0, 2^16), its low byte is the byte at `o` and its high byte the byte at `o + 1` |
| LittleEndian.GetUInt32 | src/main/fat/LittleEndian.hpp:21-27 | the result is in [0, 2^32) and splits into the 16-bit values at `o` (low half) and `o + 2` (high half) |
| LittleEndian.SetInt8 | src/main/fat/LittleEndian.hpp:29-33 | succeeds exactly for 0..255; then `getUInt8` reads the value back and no other byte changes |
| LittleEndian.SetInt16 | src/main/fat/LittleEndian.hpp:35-40 | succeeds exactly for 0..65535; then `getUInt16` reads the value back and only bytes `o`, `o + 1` change |
| LittleEndian.SetInt32 | src/main/fat/LittleEndian.hpp:42-50 | fails exactly for values above INT_MAX; otherwise `getUInt32` reads back the value modulo 2^32 (negatives are accepted) and only the four bytes change |
| LittleEndian.RoundTrip32 | src/main/fat/LittleEndian.hpp:21-50 | a non-negative `int` stored by `setInt32` reads back unchanged; a negative one reads back as its unsigned image `v + 2^32` |
| StrUtil.LeadingCountSpec | src/main/strutil.hpp:15 | `find_first_not_of`: every character before the count is in the set, and the one at the count (if any) is not |
| StrUtil.TrailingCountSpec | src/main/strutil.hpp:19 | `find_last_not_of`: every character of the trailing run is in the set, and the one before it (if any) is not |
| StrUtil.TrimSpec | src/main/strutil.hpp:13-23 | `trim` is empty exactly when every character is in the set; otherwise it is the contiguous substring starting at the first character outside the set, both its ends are outside the set, and only set characters lie before and after it |
| StrUtil.TrimDefault | src/main/strutil.hpp:13-14 | the default set of `trim` is the literal `" \t\0"`, which as a C string is space and tab; the result is no longer than the input |
| StrUtil.TrimCopy | src/main/strutil.hpp:9-11 | `trim_copy` trims the set space, tab, newline, carriage return, form feed and vertical tab; the result is no longer than the input |
| StrUtil.TrimFixed | src/main/strutil.hpp:13-23 | a string that neither starts nor ends with a set character trims to itself |
| StrUtil.TrimPadded | src/main/strutil.hpp:13-23 | a string whose ends are outside the set, followed by set characters only, trims back to the string |
| StrUtil.TrimIdempotent | src/main/strutil.hpp:13-23 | trimming twice is trimming once |
| StrUtil.ToUpper | src/main/strutil.hpp:25-29 | same length, each character mapped on its own by C `toupper` |
| StrUtil.ToLower | src/main/strutil.hpp:31-35 | same length, each character mapped on its own by C `tolower` |
| StrUtil.ToUpperAppend | src/main/strutil.hpp:25-29 | upper-casing distributes over concatenation |
| StrUtil.CaseMapping | src/main/strutil.hpp:25-35 | both mappings are idempotent, and lower-casing after upper-casing (or the reverse) equals the direct mapping |
| ByteBuffer.Remaining | src/main/ByteBuffer.hpp:54 | `remaining()` is the vector size minus the position; the limit plays no part |
| ByteBuffer.HasRemaining | src/main/ByteBuffer.hpp:55 | true exactly when the position is below the vector size |
| ByteBuffer.Allocate | src/main/ByteBuffer.hpp:13-14 | a zero-filled buffer of the size, position 0, limit equal to the size |
| ByteBuffer.Wrap | src/main/ByteBuffer.hpp:15 | the buffer holds the data, position 0, limit equal to its length |
| ByteBuffer.Flip | src/main/ByteBuffer.hpp:17 | the limit becomes the old position and the position 0; the bytes are kept |
| ByteBuffer.Rewind | src/main/ByteBuffer.hpp:56 | only the position is reset to 0 |
| ByteBuffer.SetPosition | src/main/ByteBuffer.hpp:53 | only the position changes |
| ByteBuffer.SetLimit | src/main/ByteBuffer.hpp:57 | the limit is stored as given, with no range check, and the position is not clamped |
| ByteBuffer.Get | src/main/ByteBuffer.hpp:27 | returns the byte at the position and advances the position by one |
| ByteBuffer.GetBytes | src/main/ByteBuffer.hpp:19-25 | completes exactly when the request is no longer than the vector, returning the bytes from the position and advancing it by the count; a longer request fails with the position at the vector's end |
| ByteBuffer.GetShort | src/main/ByteBuffer.hpp:46-50 | the signed 16-bit value of the two bytes at the index, low byte first; the position advances by two whatever the index |
| ByteBuffer.GetInt | src/main/ByteBuffer.hpp:34-40 | a value in [0, 2^32) whose four bytes, low byte first, are the four bytes at the index (host order taken as little-endian); the position advances by four whatever the index |
| ByteBuffer.Put | src/main/ByteBuffer.hpp:60 | stores the byte at the position, advances it by one, and changes no other byte |
| ByteBuffer.PutAt | src/main/ByteBuffer.hpp:61 | stores the byte at the offset, keeps the position, and changes no other byte |
| ByteBuffer.PutBytes | src/main/ByteBuffer.hpp:63-68 | completes exactly when the data is no longer than the vector: the data lands at the position and the position advances by its length; longer data fails after filling the vector with its first bytes |
| ByteBuffer.PutShort | src/main/ByteBuffer.hpp:73-76 | as written: a zero byte at the offset and the value's low byte after it; nothing else changes |
| ByteBuffer.PutShortGetShort | src/main/ByteBuffer.hpp:42-76 | reading back what this variant's `putShort` stored yields the low byte shifted up by eight bits, which differs from the stored value whenever that low byte is non-zero |
| ByteBuffer.PutGet | src/main/ByteBuffer.hpp:27-60 | a byte put and read again at the same position comes back, and the read leaves the buffer as the put did |
| CheckedBuffer.Remaining | src/main/util/ByteBuffer.hpp:59 | `remaining()` is the limit minus the position |
| CheckedBuffer.HasRemaining | src/main/util/ByteBuffer.hpp:60 | true exactly when the position is below the limit, that is when something remains |
| CheckedBuffer.ClearAndAllocate | src/main/util/ByteBuffer.hpp:20 | a zero-filled buffer of `n` bytes with position 0 and limit = capacity = remaining = `n` |
| CheckedBuffer.Flip | src/main/util/ByteBuffer.hpp:22 | position 0, the bytes kept, and what remains is what was written before the flip |
| CheckedBuffer.SetLimit | src/main/util/ByteBuffer.hpp:63-69 | fails exactly for a limit outside [0, capacity]; otherwise sets it and pulls a position beyond it back to it |
| CheckedBuffer.Get | src/main/util/ByteBuffer.hpp:32 | the byte at the position; the position advances by one |
| CheckedBuffer.Put | src/main/util/ByteBuffer.hpp:73 | stores at the position, advances it by one, and changes no other byte |
| CheckedBuffer.GetBytes | src/main/util/ByteBuffer.hpp:24-30 | fails exactly when the request is longer than the vector; the position advances by the bytes moved before the loop ends or throws, and a complete read returns the bytes from the position |
| CheckedBuffer.PutBytes | src/main/util/ByteBuffer.hpp:76-81 | fails exactly when the data is longer than the vector; the bytes moved land at the position, the position advances by their count, and every other byte is kept |
| CheckedBuffer.PutBytesGetBytes | src/main/util/ByteBuffer.hpp:24-81 | reading back from the old position what `put(data)` wrote returns the data (or the prefix that fitted before the throw) |
| CheckedBuffer.GetShort | src/main/util/ByteBuffer.hpp:51-55 | the signed `short` whose 16 bits are the little-endian value at the index; the position advances by two regardless of the index |
| CheckedBuffer.GetInt | src/main/util/ByteBuffer.hpp:39-45 | a value in [0, 2^32) whose low half is the little-endian 16-bit value at the index and whose high half is the one at the index plus two; the position advances by four |
| CheckedBuffer.PutShort | src/main/util/ByteBuffer.hpp:86-88 | `setInt16` of a `short`: succeeds exactly for non-negative values, and then `getShort` reads the value back; the position, the limit and every byte outside the two at the offset are kept |
| CheckedBuffer.PutInt | src/main/util/ByteBuffer.hpp:90-93 | `setInt32` of an `int32` never throws; `getInt` reads back the value modulo 2^32 and only the four bytes change |
| Sector.Create | src/main/fat/Sector.hpp:19-22 | a new sector has the given offset and size, holds only zero bytes and starts dirty |
| Sector.Get8 | src/main/fat/Sector.hpp:36-38 | the byte is read through a signed `char`: the result lies in [-128, 128), is congruent to the stored byte mod 256 and is negative exactly when the byte is 0x80 or more |
| Sector.Get16 | src/main/fat/Sector.hpp:28-30 | masking the signed `getShort` with 0xFFFF gives back the unsigned little-endian value of the two bytes |
| Sector.Get32 | src/main/fat/Sector.hpp:32-34 | the buffer's `getInt` agrees with the unsigned little-endian 32-bit field |
| Sector.Set16AsWritten | src/main/fat/Sector.hpp:40-43 | models `set16` through the buffer's `putShort`, which shifts the low byte into both bytes: the field then reads `0x100 * (v mod 256)`, the sector turns dirty and no byte outside the field changes |
| Sector.Set16 | src/main/fat/Sector.hpp:40-43 | the intended `set16`: the field reads back `v mod 2^16`, the sector is dirty and every other byte is kept |
| Sector.Set32AsWritten | src/main/fat/Sector.hpp:45-48 | `set32` writes nothing: the data is unchanged and only the dirty flag is set |
| Sector.Set32 | src/main/fat/Sector.hpp:45-48 | the intended `set32`: the field reads back `v mod 2^32`, the sector is dirty and every other byte is kept |
| Sector.Set8 | src/main/fat/Sector.hpp:50-57 | refuses values outside 0..255; otherwise stores exactly that byte, marks the sector dirty and keeps every other byte |
| Sector.ReadFrom | src/main/fat/Sector.hpp:64-69 | succeeds exactly when the sector's range lies on the device; the sector then holds the device bytes of that range and is clean |
| Sector.Write | src/main/fat/Sector.hpp:79-86 | a clean sector writes nothing; a dirty one fails exactly when its range runs past the device, and otherwise lands its bytes in that range, leaves every other device byte alone and becomes clean |
| Sector.WriteThenRead | src/main/fat/Sector.hpp:64-86 | writing a dirty sector that fits and reading it back returns the same bytes |
| Sector.Set16AsWrittenLosesValue | src/main/fat/Sector.hpp:40-43 | storing 512 as the bytes-per-sector field reads back 0 as written, but 512 with the intended store |
| Sector.Set32AsWrittenLosesValue | src/main/fat/Sector.hpp:45-48 | storing 70000 in a 32-bit field reads back 0 as written, but 70000 with the intended store |
| Device.Read | src/main/ImageBlockDevice.hpp:28-42 | fails exactly when the offset plus the buffer's `remaining()` runs past the device; otherwise the limit and capacity are kept and the position moves to the limit |
| Device.ReadBytes | src/main/ImageBlockDevice.hpp:28-42 | a successful read puts the device bytes from the offset into the window between position and limit, and leaves the rest of the buffer alone |
| Device.Write | src/main/ImageBlockDevice.hpp:44-55 | fails exactly when the offset plus `remaining()` runs past the device; otherwise the device length is kept and the buffer's position moves to its limit |
| Device.WriteBytes | src/main/ImageBlockDevice.hpp:44-55 | a successful write copies the window into the device from the offset and leaves every other device byte alone |
| Device.WriteWindow | src/main/ImageBlockDevice.hpp:44-55 | the device after a write, with the past-the-end error: the written range equals the window and the rest is kept |
| Device.WriteImage | src/main/ImageBlockDevice.hpp:44-55 | writing a whole rewound buffer succeeds exactly when its capacity fits; the device range then holds the image and the bytes before and after it are kept |
| Device.WriteThenRead | src/main/ImageBlockDevice.hpp:28-55 | writing a full buffer and reading the same range into the rewound buffer gives back the same bytes |
| FsObject.Create | src/main/AbstractFsObject.hpp:21-24 | a new object is valid with the given read-only flag, so its validity check passes |
| FsObject.Invalidate | src/main/AbstractFsObject.hpp:28-30 | after `invalidate` both the validity and the writability checks fail with "not valid" |
| FsObject.CheckValid | src/main/AbstractFsObject.hpp:32-34 | passes exactly when the object is valid |
| FsObject.CheckWritable | src/main/AbstractFsObject.hpp:36-42 | passes exactly when the object is valid and not read-only; the validity failure comes first |
| FsObject.Open | src/main/AbstractFileSystem.hpp:12-15 | a new file system is open with the given read-only flag |
| FsObject.CheckClosed | src/main/AbstractFileSystem.hpp:36-40 | fails, with "already closed", exactly when the file system is closed |
| FsObject.CheckReadOnly | src/main/AbstractFileSystem.hpp:42-46 | fails, with "read only", exactly when the file system is read-only |
| FsObject.CloseFlushes | src/main/AbstractFileSystem.hpp:17-25 | `close` flushes exactly when the file system is still open and writable |
| FsObject.Closed | src/main/AbstractFileSystem.hpp:17-25 | after `close` the file system is closed, keeps its read-only flag, refuses further use, and a second `close` does not flush again |
| BootSector.BytesPerSector | src/main/fat/BootSector.hpp:33-35 | the bytes-per-sector field is read as an unsigned 16-bit value |
| BootSector.NrReservedSectors | src/main/fat/BootSector.hpp:37-39 | the reserved-sector count is read as an unsigned 16-bit value |
| BootSector.NrFats | src/main/fat/BootSector.hpp:54-56 | the FAT count goes through the signed `get8`, so it lies in [-128, 128) |
| BootSector.SectorsPerCluster | src/main/fat/BootSector.hpp:167-169 | sectors per cluster goes through the signed `get8`, so it lies in [-128, 128) |
| BootSector.MediumDescriptor | src/main/fat/BootSector.hpp:190-192 | the medium descriptor goes through the signed `get8`, so it lies in [-128, 128) |
| BootSector.SectorsPerTrack | src/main/fat/BootSector.hpp:198-200 | sectors per track is read as an unsigned 16-bit value |
| BootSector.NrHeads | src/main/fat/BootSector.hpp:209-211 | the head count is read as an unsigned 16-bit value |
| BootSector.NrHiddenSectors | src/main/fat/BootSector.hpp:219-221 | the hidden-sector count is read as an unsigned 32-bit value |
| BootSector.NrLogicalSectors | src/main/fat/BootSector.hpp:235-237 | the 16-bit sector count is read as an unsigned 16-bit value |
| BootSector.NrTotalSectors | src/main/fat/BootSector.hpp:249-251 | the 32-bit sector count is read as an unsigned 32-bit value |
| BootSector.SectorsPerFat | src/main/fat/Fat16BootSector.hpp:57-59 | the FAT size in sectors is read as an unsigned 16-bit value |
| BootSector.RootDirEntryCount | src/main/fat/Fat16BootSector.hpp:113-115 | the root entry count is read as an unsigned 16-bit value |
| BootSector.SectorCount | src/main/fat/Fat16BootSector.hpp:107-110 | the 16-bit count is used unless it is zero, and then the 32-bit count is used |
| BootSector.FatOffset | src/main/fat/BootSector.hpp:41-52 | copy `n` of the FAT starts at (reserved sectors + `n` × sectors per FAT) × bytes per sector, so for `n` ≥ 0 never before the reserved sectors |
| BootSector.FatCopiesAdjacent | src/main/fat/BootSector.hpp:41-52 | copy `j` starts exactly `j - i` FAT sizes after copy `i`, so the copies lie back to back and never overlap |
| BootSector.RootDirOffset | src/main/fat/BootSector.hpp:58-68 | the root directory starts where a FAT copy numbered `getNrFats()` would start, that is, right after the last copy |
| BootSector.FilesOffset | src/main/fat/BootSector.hpp:70-76 | the data area starts 32 bytes per root entry after the root directory |
| BootSector.BytesPerCluster | src/main/fat/BootSector.hpp:163-165 | with both factors positive a cluster is at least one sector long, and with both non-zero it is non-empty |
| BootSector.DataSize | src/main/fat/BootSector.hpp:258-260 | the data area and everything before it add up to the whole volume, `getSectorCount() * getBytesPerSector()` |
| BootSector.DataClusterCount | src/main/fat/BootSector.hpp:115-117 | the count is the number of whole clusters that fit in the data area: `n` of them fit and `n + 1` do not |
| BootSector.GetFatType | src/main/fat/Fat16BootSector.hpp:70-93 | succeeds, with FAT16, exactly when the cluster count it computes is at most 65524 |
| BootSector.IsPowerOfTwo | src/main/fat/BootSector.hpp:254-256 | the bit test `n != 0 && (n & (n - 1)) == 0` holds exactly for the positive powers of two |
| BootSector.PowerOfTwoPattern | src/main/fat/BootSector.hpp:254-256 | on 32-bit two's complement patterns, the bit test agrees with "a positive power of two" |
| BootSector.SetBytesPerSector | src/main/fat/BootSector.hpp:147-161 | accepts the current value or one of 512, 1024, 2048 and 4096, and refuses anything else; an accepted new value is stored through `set16`, which as written leaves 0 in the field; nothing outside the field changes |
| BootSector.SetSectorsPerCluster | src/main/fat/BootSector.hpp:171-176 | accepts the current value unchanged, or a power of two below 256 stored in its byte; refuses the rest; nothing outside the byte changes |
| BootSector.SetNrReservedSectors | src/main/fat/BootSector.hpp:178-182 | accepts the current value or any value of 1 or more, stored through `set16`; refuses the rest; nothing outside the field changes |
| BootSector.SetNrFats | src/main/fat/BootSector.hpp:184-188 | accepts the current value or a byte value, which is then stored; refuses the rest; nothing outside the byte changes |
| BootSector.SetMediumDescriptor | src/main/fat/BootSector.hpp:194-196 | stores any byte value and refuses the rest; nothing outside the byte changes |
| BootSector.SetSectorsPerTrack | src/main/fat/BootSector.hpp:203-207 | keeps the current value, or stores a new one through `set16`; nothing outside the field changes |
| BootSector.SetNrHeads | src/main/fat/BootSector.hpp:213-217 | keeps the current value, or stores a new one through `set16`; nothing outside the field changes |
| BootSector.SetNrHiddenSectors | src/main/fat/BootSector.hpp:223-227 | the store is commented out, so the sector, dirty flag included, is left exactly as it was |
| BootSector.SetNrLogicalSectors | src/main/fat/BootSector.hpp:239-243 | keeps the current value, or stores a new one through `set16`; nothing outside the field changes |
| BootSector.SetNrTotalSectors | src/main/fat/BootSector.hpp:245-247 | marks the sector dirty; as written `set32` stores nothing, and the intended store reads back `v mod 2^32`; nothing outside the field changes |
| BootSector.SetSectorCount | src/main/fat/Fat16BootSector.hpp:96-104 | counts above 65535 zero the 16-bit field, and smaller ones go into it; the 32-bit field is always set; with the intended stores `getSectorCount` reads back any 32-bit count; the sector size and root entry count are kept |
| BootSector.SetSectorsPerFat | src/main/fat/Fat16BootSector.hpp:62-67 | accepts the current value or any value up to 0x7FFF, stored through `set16`; refuses larger ones; nothing outside the field changes |
| BootSector.SetRootDirEntryCount | src/main/fat/Fat16BootSector.hpp:117-123 | refuses a negative count; otherwise keeps the current value or stores the new one through `set16`; nothing outside the field changes |
| BootSector.VolumeLabel | src/main/fat/Fat16BootSector.hpp:30-44 | the label is the text before the first zero byte, at most 11 characters |
| BootSector.SetVolumeLabel | src/main/fat/Fat16BootSector.hpp:46-54 | a label over 11 characters is refused with the sector unchanged; the label is set exactly when every character is below 0x80; otherwise `set8` throws at the first wider character, after the characters before it were stored and the sector marked dirty; a set NUL-free label reads back, and nothing outside the field changes |
| BootSector.LabelStopsAtWideChar | src/main/fat/Fat16BootSector.hpp:46-54 | the label "AB" followed by the character 0xE9 throws with "A" and "B" stored, the third byte as it was and the sector dirty |
| BootSector.PutBytes | src/main/fat/Fat16BootSector.hpp:50-53 | `set8` at consecutive offsets completes exactly when every value fits an octet; the values before the first misfit are stored, no other byte changes, and the sector is dirty once anything was stored |
| BootSector.OemName | src/main/fat/BootSector.hpp:119-129 | the OEM name is the text before the first zero byte, at most 8 characters |
| BootSector.SetOemName | src/main/fat/BootSector.hpp:131-145 | a name over 8 characters is refused with the sector unchanged; the name is set exactly when every character is below 0x80, and otherwise the characters before the first wider one are stored and the sector is dirty when `set8` throws; a set NUL-free name reads back, and nothing outside the field changes |
| BootSector.FileSystemTypeLabel | src/main/fat/BootSector.hpp:94-102 | the type label is all eight bytes of the field, NULs included |
| BootSector.SetFileSystemTypeLabel | src/main/fat/BootSector.hpp:104-113 | a label not of exactly eight characters is refused with the sector unchanged; the label is set exactly when every character is below 0x80, and then reads back; otherwise the characters before the first wider one are stored when `set8` throws; nothing outside the field changes |
| BootSector.FieldRoundTrip | src/main/fat/Fat16BootSector.hpp:30-54 | a NUL-free seven-bit text stored zero padded in a field is read back whole by the zero-terminated reading |
| BootSector.Read | src/main/fat/BootSector.cpp:8-24 | succeeds exactly when the device holds 512 bytes ending in 0x55 0xAA with a non-zero sectors-per-cluster byte; the sector then mirrors those bytes, is clean and sits at offset 0 |
| BootSector.BootCode | src/main/fat/BootSector.hpp:85-91 | stamps the extended boot signature, the jump `eb 3c 90` and the 0x55 0xAA signature, and keeps every other byte of 3..509 |
| BootSector.BootCodeKeepsGeometry | src/main/fat/BootSector.hpp:82-92 | the stamped bytes do not touch the sector size, the sector count or the root entry count |
| BootSector.StampedGeometry | src/main/fat/BootSector.hpp:82-92 | after setting the sector count and stamping, the sector size and root entry count are kept and, with the intended stores, the sector count reads back |
| BootSector.InitGeneric | src/main/fat/BootSector.hpp:82-92 | `BootSector::init` succeeds exactly when the device's sector size is accepted; the result holds the sector size (0 as written, for a new value), with the intended stores the device size in sectors, the root entry count it had, and the boot code |
| BootSector.Init | src/main/fat/Fat16BootSector.hpp:125-130 | the FAT16 `init` also sets 512 root entries (intended) and the default label, which reads back |
| BootSector.DefaultRootAndLabel | src/main/fat/Fat16BootSector.hpp:125-130 | the FAT16 defaults set the root entry count and the label, and keep the sector size, the sector count and the signature bytes |
| BootSector.InitAsWrittenLosesGeometry | src/main/fat/Fat16BootSector.hpp:125-130 | on a fresh sector, `init` as written leaves 0 bytes per sector and 0 root entries, while the intended stores leave 512 and 512 |
| BootSector.InitThenRead | src/main/fat/BootSector.cpp:8-24 | a boot sector produced by `init` and written to the device is read back by `BootSector::read` unchanged |
| FatType.ThresholdsFromMask | src/main/fat/FatType.hpp:20-26 | the reserved range, the end-of-chain threshold and the end-of-chain marker are the 28-bit constants 0xFFFFFF0, 0xFFFFFF6, 0xFFFFFF8 and 0xFFFFFFF masked with the format's bit mask |
| FatType.ThresholdOrder | src/main/fat/FatType.hpp:20-48 | reserved values lie below the end-of-chain threshold, the marker reaches that threshold, and all of them fit the mask |
| FatType.EofMarkerIsEof | src/main/fat/FatType.hpp:42-52 | the marker that ends a chain is recognised by `isEofCluster` and is not a reserved value |
| FatType.Truncate | src/main/fat/FatType.hpp:81-87 | an entry keeps only the bits of the mask: the result fits the mask, and a value that already fits is kept |
| FatType.ReadEntry | src/main/fat/FatType.hpp:73-79 | an entry read from the table fits the format's mask |
| FatType.WriteEntry | src/main/fat/FatType.hpp:81-87 | after a write, `readEntry` at the same index gives back the entry's masked value, the table keeps its length, and bytes outside the entry's slot do not change |
| Fat.EntryCount | src/main/fat/Fat.hpp:70-71 | the table never has more entries than fit in `sectorsPerFat * bytesPerSector` bytes |
| Fat.New | src/main/fat/Fat.hpp:41-76 | the constructor succeeds exactly when the FAT16 type check passes, the FAT has at least one sector, the data cluster count is non-zero and fits an `int`, and the table has an entry for every data cluster; the table is then all zeros, with the allocation cursor at cluster 2 |
| Fat.DecodeEntries | src/main/fat/Fat.hpp:30-36 | decoding `n` slots gives `n` entries, each within the mask |
| Fat.EncodeEntries | src/main/fat/Fat.hpp:125-131 | the image `writeCopy` builds has the table's byte size, holds each entry's masked value in its slot, and is zero after the last entry |
| Fat.DecodeEncode | src/main/fat/Fat.hpp:30-36 | decoding the image of a table gives back every entry that fits the mask, and the masked value of any other |
| Fat.Load | src/main/fat/Fat.hpp:30-36 | reading a copy succeeds exactly when it lies on the device; the entries are then the decoded bytes of the copy and nothing else about the table changes |
| Fat.LoadTwice | src/main/fat/Fat.hpp:30-36 | reading the same copy again changes nothing |
| Fat.Read | src/main/fat/Fat.hpp:78-89 | `Fat::read` succeeds exactly when `fatNr` is at most the FAT count (so one past the last copy passes), the constructor succeeds and the copy lies on the device; the table then sits at that copy's offset and equals what the device holds there |
| Fat.ReadCopy | src/main/fat/Fat.hpp:78-89 | corrected: a copy number at or past the FAT count is refused, and every copy below it reads as `Fat::read` reads it |
| Fat.ReadPastLastCopy | src/main/fat/Fat.hpp:80 | as written, the copy number equal to the FAT count passes the check and reads a table from the root directory region, which the corrected read refuses |
| Fat.WriteCopy | src/main/fat/Fat.hpp:125-134 | writing a copy succeeds exactly when it fits on the device; the copy's range then holds the encoded table and every other device byte is kept |
| Fat.LoadAfterWrite | src/main/fat/Fat.hpp:121-134 | a table whose entries fit the mask, written and read back at its own offset, is restored exactly |
| Fat.LoadEncoded | src/main/fat/Fat.hpp:30-36 | a device holding a table's encoding at its offset reads back to that table |
| Fat.Init | src/main/fat/Fat.hpp:23-28 | entry 0 gets the descriptor's low byte under 0xFF00, entry 1 the end-of-chain marker, and every other entry is kept |
| Fat.InitFresh | src/main/fat/Fat.hpp:23-28 | stamping a fresh table keeps it valid, every entry fits the mask, and every data cluster stays free |
| Fat.Stamp | src/main/fat/Fat.hpp:101-106 | `init` then `write`: succeeds exactly when the copy fits; the medium descriptor reads back, entry 1 ends a chain, every data cluster is free, and the copy on the device reads back to the table |
| Fat.Create | src/main/fat/Fat.hpp:91-107 | `Fat::create` succeeds only for a copy number up to the FAT count and a table with an entry for each data cluster; the new copy carries the boot sector's medium descriptor, frees every data cluster and reads back from the device |
| Fat.MediumDescriptor | src/main/fat/Fat.hpp:136-138 | the descriptor is the low byte of entry 0 |
| Fat.TestCluster | src/main/fat/Fat.hpp:287-291 | a cluster number passes exactly when it is at least 2 and indexes the table |
| Fat.Walk | src/main/fat/Fat.hpp:148-167 | following the links gives a chain from the start cluster; a link out of the table or a loop is reported as a corrupt chain |
| Fat.GetChain | src/main/fat/Fat.hpp:148-167 | `getChain` returns the chain from the start cluster; an invalid start cluster is refused |
| Fat.ChainUnique | src/main/fat/Fat.hpp:148-167 | a start cluster has only one chain |
| Fat.ChainDistinct | src/main/fat/Fat.hpp:148-167 | a chain never visits a cluster twice |
| Fat.ChainLength | src/main/fat/Fat.hpp:148-167 | a chain is no longer than the table |
| Fat.GetChainComplete | src/main/fat/Fat.hpp:148-167 | every chain from a valid start cluster is found, never reported as corrupt |
| Fat.GetNextCluster | src/main/fat/Fat.hpp:169-177 | succeeds exactly for a valid cluster; the result is -1 when its entry ends the chain, and the entry otherwise |
| Fat.NextAlongChain | src/main/fat/Fat.hpp:148-177 | stepping with `getNextCluster` from each cluster of a chain gives the next one, and -1 after the last |
| Fat.FreeCount | src/main/fat/Fat.hpp:213-221 | the free count is at most the number of data clusters |
| Fat.CountFreePositive | src/main/fat/Fat.hpp:213-221 | the count is positive exactly when some entry in the range is free |
| Fat.CountFreeUpdate | src/main/fat/Fat.hpp:213-221 | changing one entry changes the count by exactly the change in that entry's freeness |
| Fat.AllocNew | src/main/fat/Fat.hpp:179-211 | `allocNew()` succeeds exactly when some data cluster is free, and fails with "FAT full" otherwise; the cluster it returns was free, is now end-of-chain and becomes the cursor, and no other entry changes |
| Fat.AllocNewScanOrder | src/main/fat/Fat.hpp:184-198 | the cluster taken is the first free one scanning from the cursor and wrapping around to cluster 2 |
| Fat.AllocNewCount | src/main/fat/Fat.hpp:179-211 | a successful `allocNew()` uses up exactly one free cluster |
| Fat.AllocNewFull | src/main/fat/Fat.hpp:200-203 | `allocNew()` fails exactly when the free count is zero |
| Fat.AllocAppend | src/main/fat/Fat.hpp:238-250 | `allocAppend` fails on an invalid or corrupt chain or a full table; on success the new cluster is the one `allocNew()` would take, and the table keeps its layout |
| Fat.AllocAppendExtends | src/main/fat/Fat.hpp:238-250 | appending through any cluster of a chain lengthens that chain by one cluster that was free, uses up one free cluster, and changes only the new cluster and the old end |
| Fat.AllocRest | src/main/fat/Fat.hpp:231-233 | the loop of `allocNew(n)`: with enough free clusters all `k` appends succeed and use up `k` free clusters; with too few it stops with "FAT full" and none left, keeping what it took |
| Fat.AppendOutcome | src/main/fat/Fat.hpp:231-233 | one append to the end of the clusters handed out so far succeeds exactly when a cluster is free, and then extends them by one and uses up one free cluster |
| Fat.AllocNewN | src/main/fat/Fat.hpp:227-236 | `allocNew(n)`: a negative `n` is refused with the table untouched; with enough free clusters it returns `n` clusters forming one chain and uses up `n`; with too few it fails with "FAT full" after using up all of them |
| Fat.AllocNewNChain | src/main/fat/Fat.hpp:227-236 | with enough free clusters, `allocNew(n)` returns `n` distinct data clusters that `getChain` gives back from the first |
| Fat.AppendWhenFull | src/main/fat/Fat.hpp:200-203 | with no free cluster left, an append fails with "FAT full" |
| Fat.SetEof | src/main/fat/Fat.hpp:252-255 | succeeds exactly for a valid cluster, which then ends a one-cluster chain; no other entry changes |
| Fat.SetFree | src/main/fat/Fat.hpp:257-260 | succeeds exactly for a valid cluster, which becomes free; no other entry changes |
| Fat.SetFreeCount | src/main/fat/Fat.hpp:257-260 | freeing a data cluster in use adds one to the free count |
| Fat.Equals | src/main/fat/Fat.hpp:262-274 | as written: two tables are equal exactly when they share the type object, layout and entries |
| Fat.EqualsByKind | src/main/fat/Fat.hpp:262-274 | as intended: two tables are equal exactly when their types are the same kind and their layouts and entries agree |
| Fat.EqualsRejectsIdenticalCopies | src/main/fat/Fat.hpp:262-274 | two identical tables built with different type objects are unequal as written and equal by kind |
| Fat.EqualsByKindEquivalence | src/main/fat/Fat.hpp:262-274 | the comparison by kind is reflexive, symmetric and transitive |
| ClusterChain.Open | src/main/fat/ClusterChain.hpp:28-41 | a chain opens exactly when its start cluster is 0 or a valid cluster whose entry is in use; otherwise the error says which check failed |
| ClusterChain.ChainLength | src/main/fat/ClusterChain.hpp:75-79 | an empty chain has length 0, and a chain of data clusters always has a length |
| ClusterChain.ChainLengthCounts | src/main/fat/ClusterChain.hpp:75-79 | a counted chain exists, and every chain from its start cluster has exactly the counted number of clusters |
| ClusterChain.LengthOnDisk | src/main/fat/ClusterChain.hpp:59-63 | the bytes on disk are the cluster count times the cluster size, 0 for an empty chain, and fail exactly when the count does |
| ClusterChain.Grow | src/main/fat/ClusterChain.hpp:93-100 | the growing loop of `setChainLength`: with enough free clusters it lengthens the chain by `count` data clusters, keeps its old clusters as a prefix and uses up `count` free clusters; it fails only on an invalid or corrupt chain or a full table |
| ClusterChain.FreeAll | src/main/fat/ClusterChain.hpp:105-111 | `setFree` on each cluster: completes exactly when every cluster is valid, then every one of them is free; entries of other clusters never change |
| ClusterChain.Shrink | src/main/fat/ClusterChain.hpp:103-107 | shortening a data chain to `n > 0` clusters leaves its first `n` clusters as the chain and frees the rest |
| ClusterChain.ShrinkKeepsHead | src/main/fat/ClusterChain.hpp:103-107 | after ending the chain at cluster `n - 1` and freeing the rest, `getChain` gives the first `n` clusters |
| ClusterChain.ShrinkFrees | src/main/fat/ClusterChain.hpp:105-107 | after shortening, every cluster past the first `n` is free |
| ClusterChain.SetChainLength | src/main/fat/ClusterChain.hpp:81-118 | a negative count is refused with nothing changed; otherwise the table stays valid with its layout and only the chain's start cluster may change; an aborted resize keeps the chain as it was, start cluster included, because the throw comes before the start is reset |
| ClusterChain.SetChainLengthResizes | src/main/fat/ClusterChain.hpp:81-118 | with enough free clusters, `setChainLength(n)` succeeds and leaves a chain of exactly `n` clusters; an existing chain keeps its start and its common prefix, and growth uses up exactly the added clusters |
| ClusterChain.RoundUp | src/main/fat/ClusterChain.hpp:65-66 | the cluster count covers the size, with less than one cluster to spare |
| ClusterChain.SetSize | src/main/fat/ClusterChain.hpp:65-73 | `setSize` refuses a cluster count above INT_MAX with nothing changed; on success it returns the count times the cluster size |
| ClusterChain.SetSizeResizes | src/main/fat/ClusterChain.hpp:65-73 | with enough free clusters, `setSize` succeeds, the chain then holds the size rounded up to whole clusters, and the length on disk is the value returned |
| ClusterChain.ClustersApart | src/main/fat/ClusterChain.hpp:19-22 | distinct clusters occupy disjoint device ranges |
| ClusterChain.ReadData | src/main/fat/ClusterChain.hpp:120-154 | `readData` fails for an empty chain with bytes to read, and on a corrupt chain, a piece beyond the chain or past the device; a success fills the buffer up to its capacity, and on a readable chain the result is the piece-by-piece read from `offset` |
| ClusterChain.ReadFromFits | src/main/fat/ClusterChain.hpp:131-153 | the pieces of a read succeed exactly when every piece lies within the chain and on the device |
| ClusterChain.ReadFromReads | src/main/fat/ClusterChain.hpp:131-153 | a successful read puts the device bytes of the chain span, in chain order, at the buffer position and changes no other buffer byte |
| ClusterChain.WriteFromFits | src/main/fat/ClusterChain.hpp:167-191 | the pieces of a write complete exactly under the condition that lets the same pieces be read |
| ClusterChain.WriteFromKeeps | src/main/fat/ClusterChain.hpp:167-191 | whatever its outcome, a write changes no device byte outside the chain's clusters from the first one written |
| ClusterChain.WriteFromWrites | src/main/fat/ClusterChain.hpp:167-191 | a completed write on a chain with distinct clusters leaves the buffer bytes as the device bytes of the chain span |
| ClusterChain.Extend | src/main/fat/ClusterChain.hpp:162-165 | a chain already long enough is left alone; with enough free clusters a short one grows to at least `minSize` bytes |
| ClusterChain.Transfer | src/main/fat/ClusterChain.hpp:167-191 | the table and chain are kept, the device keeps its length, an unreadable chain is refused, and a completed transfer consumes the whole buffer |
| ClusterChain.TransferKeeps | src/main/fat/ClusterChain.hpp:167-191 | a transfer changes no device byte outside the chain's clusters |
| ClusterChain.TransferWrites | src/main/fat/ClusterChain.hpp:167-191 | a completed transfer leaves the buffer's `remaining()` bytes as the device bytes of the chain from byte `offset` on |
| ClusterChain.TransferThenRead | src/main/fat/ClusterChain.hpp:120-191 | after a completed write, `readData` at the same offset into a like buffer succeeds and reads back the bytes written |
| ClusterChain.ReadBack | src/main/fat/ClusterChain.hpp:120-154 | `readData` over a chain span that holds `s` and passes the checks reads `s` |
| ClusterChain.WriteData | src/main/fat/ClusterChain.hpp:156-193 | `writeData`: an empty write does nothing; a chain long enough is not resized; the device changes only inside the chain's clusters; a completed write reads back at the same offset |
| ShortName.CheckValidChars | src/main/fat/ShortName.hpp:168-187 | accepts exactly the non-empty fields that do not start with a space and whose every character is legal: below 0x80, not a control character other than 0x05, and not one of the illegal punctuation marks |
| ShortName.ToCharArray | src/main/fat/ShortName.hpp:25-40 | accepts a name of 1 to 8 characters and an extension of at most 3, and lays them out space padded at bytes 0 and 8 |
| ShortName.FromString | src/main/fat/ShortName.hpp:66-84 | a name longer than 12 characters is refused; an accepted one is 1 to 12 characters long, does not start with a space and has only legal characters |
| ShortName.Of | src/main/fat/ShortName.hpp:86-88 | the two-part constructor succeeds exactly for a 1 to 8 character name and an extension of at most 3 |
| ShortName.Dot | src/main/fat/ShortName.hpp:90-93 | the `.` short name is the two-part construction of "." with no extension |
| ShortName.DotDot | src/main/fat/ShortName.hpp:95-98 | the `..` short name is the two-part construction of ".." with no extension |
| ShortName.Get | src/main/fat/ShortName.hpp:100-104 | "." and ".." give the dot names, and anything else goes through the checked constructor |
| ShortName.CanConvert | src/main/fat/ShortName.hpp:106-113 | `canConvert` holds exactly when `get` succeeds |
| ShortName.CanConvertWithoutDot | src/main/fat/ShortName.hpp:66-113 | a name with no dot converts exactly when it has 1 to 8 characters, does not start with a space and has only legal characters |
| ShortName.AtMostOneDot | src/main/fat/ShortName.hpp:66-84 | a name the constructor accepts has at most one dot, because the name part may not hold one |
| ShortName.Parse | src/main/fat/ShortName.hpp:115-134 | a parsed short name keeps bytes 1 to 10 of the entry as they are |
| ShortName.Write | src/main/fat/ShortName.hpp:136-139 | writing puts the 11 name bytes at the start of the entry and changes nothing after them |
| ShortName.ParseWrite | src/main/fat/ShortName.hpp:115-139 | parsing what was written gives the same short name back, except that a leading 0x05 comes back as 0xE5 |
| ShortName.Equals | src/main/fat/ShortName.hpp:189-196 | two short names are equal exactly when their bytes are |
| ShortName.DotsReadBack | src/main/fat/ShortName.hpp:141-166 | the dot names read back as "." and ".." |
| ShortName.DotNamesReadBack | src/main/fat/ShortName.hpp:86-166 | any two-part construction of "." or ".." reads back as itself |
| ShortName.FromStringFields | src/main/fat/ShortName.hpp:66-84 | the constructor upper-cases the parts before and after the last dot and stores them space padded |
| ShortName.ReadBackFields | src/main/fat/ShortName.hpp:141-166 | `asSimpleString` of space-padded fields gives back the name, followed by a dot and the extension when there is one |
| ShortName.RoundTrip | src/main/fat/ShortName.hpp:66-166 | a name the constructor accepts, with no space, not starting with 0x05 and not ending in a dot, reads back upper-cased |
| NameGen.ValidCharsAreLegal | src/main/fat/ShortNameGenerator.hpp:58-69 | every character `validChar` keeps is legal in a short name, is not skipped and is already upper case |
| NameGen.TidyString | src/main/fat/ShortNameGenerator.hpp:11-27 | the stubbed `tidyString` gives the empty string for every input |
| NameGen.CleanString | src/main/fat/ShortNameGenerator.hpp:29-36 | the stubbed `cleanString` accepts every string |
| NameGen.StripLeadingPeriods | src/main/fat/ShortNameGenerator.hpp:38-50 | the stubbed `stripLeadingPeriods` gives the empty string for every input |
| NameGen.GenerateShortName | src/main/fat/ShortNameGenerator.hpp:71-113 | the stubbed generator builds a short name from "", which the constructor refuses, so it always fails |
| AkaiPart.CheckValidChars | src/main/fat/AkaiPart.hpp:66-82 | accepts exactly the fields whose every character is legal; unlike the short name check, a leading space is allowed |
| AkaiPart.ShortNameCheckIsStricter | src/main/fat/AkaiPart.hpp:66-82 | the short name check is the Akai part check plus "does not start with a space" |
| AkaiPart.New | src/main/fat/AkaiPart.hpp:33-39 | more than 8 characters is refused as too long; otherwise the part is accepted exactly when every character is legal, and is stored space padded to 8 |
| AkaiPart.Parse | src/main/fat/AkaiPart.hpp:45-54 | bytes 12 to 19 that are not all Akai characters become 8 spaces; valid ones are kept as they are |
| AkaiPart.BlankPart | src/main/fat/AkaiPart.hpp:45-54 | the 8-space fallback of `parse` is accepted by the constructor |
| AkaiPart.Write | src/main/fat/AkaiPart.hpp:56-59 | writing puts the 8 bytes at offset 12 and changes nothing before or after them |
| AkaiPart.AsSimpleString | src/main/fat/AkaiPart.hpp:61-64 | the trimmed part has at most 8 characters |
| AkaiPart.InvalidFieldReadsEmpty | src/main/fat/AkaiPart.hpp:45-64 | a field that is not a valid Akai part parses and reads back as the empty string |
| AkaiPart.RoundTrip | src/main/fat/AkaiPart.hpp:33-64 | a valid part, written and parsed, reads back as itself when it has no leading or trailing blanks |
| DirEntry.Classification | src/main/fat/FatDirectoryEntry.hpp:83-131 | an entry is at most one of file, directory and volume label; an LFN entry is none of them; any other entry is one of them exactly when its directory and volume-id bits are not both set |
| DirEntry.WithFlags | src/main/fat/FatDirectoryEntry.hpp:56-58 | the attribute byte holds the new flags and every other byte is kept |
| DirEntry.SetFlag | src/main/fat/FatDirectoryEntry.hpp:38-50 | only the attribute byte can change, and the entry turns dirty exactly when the flag actually changes |
| DirEntry.SetFlagBits | src/main/fat/FatDirectoryEntry.hpp:38-50 | a flag already in the requested state leaves the entry unchanged; otherwise the mask is or-ed in or cleared |
| DirEntry.SetFlagSets | src/main/fat/FatDirectoryEntry.hpp:38-50 | after setting, the flag reads as set; after clearing, as clear |
| DirEntry.SetFlagIdempotent | src/main/fat/FatDirectoryEntry.hpp:38-50 | setting the same flag twice is the same as once |
| DirEntry.SetFlagKeeps | src/main/fat/FatDirectoryEntry.hpp:38-50 | setting one flag leaves every disjoint flag as it was |
| DirEntry.Read | src/main/fat/FatDirectoryEntry.hpp:65-75 | a zero first byte ends the listing and consumes nothing; otherwise the 32 bytes at the position become a clean entry and the position moves past them |
| DirEntry.WriteNullEntry | src/main/fat/FatDirectoryEntry.hpp:77-81 | 32 zero bytes are put at the position, which moves past them, and no other byte changes |
| DirEntry.NullEntryEndsListing | src/main/fat/FatDirectoryEntry.hpp:65-81 | reading where a null entry was written finds the end of the listing |
| DirEntry.Write | src/main/fat/FatDirectoryEntry.hpp:218-221 | the put succeeds exactly when the buffer can hold a 32-byte entry; the entry's bytes land at the position, and the entry is clean afterwards only when the put succeeded |
| DirEntry.WriteThenRead | src/main/fat/FatDirectoryEntry.hpp:65-75 | an entry with a non-zero first byte, written and read back at the same position, comes back with the same bytes |
| DirEntry.Create | src/main/fat/FatDirectoryEntry.hpp:133-141 | a new entry is a directory or a file as asked, never an LFN entry, with length 0, start cluster 0 and a zero first byte |
| DirEntry.CreateVolumeLabel | src/main/fat/FatDirectoryEntry.hpp:143-155 | the label's bytes start the entry and the rest is zero, except the attribute byte, which holds exactly the volume-id flag |
| DirEntry.GetVolumeLabel | src/main/fat/FatDirectoryEntry.hpp:157-174 | fails exactly for an entry that is not a volume label; the label is at most 11 characters and contains no zero byte |
| DirEntry.LabelRoundTrip | src/main/fat/FatDirectoryEntry.hpp:143-174 | a NUL-free label stored in a label entry reads back cut to 11 characters |
| DirEntry.GetLength | src/main/fat/FatDirectoryEntry.hpp:180-182 | the length is the unsigned 32-bit file size field |
| DirEntry.SetLength | src/main/fat/FatDirectoryEntry.hpp:184-186 | `setInt32` refuses lengths above INT_MAX; otherwise the field reads back the length modulo 2^32 and the bytes before it are kept |
| DirEntry.LengthRoundTrip | src/main/fat/FatDirectoryEntry.hpp:180-186 | any length from 0 to INT_MAX reads back, and the start cluster and flags are kept |
| DirEntry.GetStartCluster | src/main/fat/FatDirectoryEntry.hpp:207-209 | the start cluster is the unsigned 16-bit field at 0x1a |
| DirEntry.SetStartCluster | src/main/fat/FatDirectoryEntry.hpp:211-216 | values above INT_MAX are refused, and so is any value whose `int` narrowing leaves 0..65535; an accepted value reads back and no other byte changes |
| DirEntry.GetShortName | src/main/fat/FatDirectoryEntry.hpp:188-194 | a zero first byte fails, because `ShortName("", "")` refuses the empty name; otherwise bytes 1 to 10 are the short name's |
| DirEntry.SetShortName | src/main/fat/FatDirectoryEntry.hpp:200-203 | the 11 name bytes are written, the rest of the entry is kept and the entry turns dirty |
| DirEntry.ShortNameRoundTrip | src/main/fat/FatDirectoryEntry.hpp:188-203 | a short name not starting with 0 or 0x05, set and read back, is the same short name |
| DirEntry.SplitName | src/main/fat/AkaiFatLfnDirectory.cpp:77-86 | "." and ".." and names with no dot are not split; other names split at the last dot, the extension holding no dot |
| DirEntry.AkaiFields | src/main/fat/FatDirectoryEntry.cpp:9-18 | the short name gets the first 8 characters of the base plus the extension, and the Akai part gets the characters past 8, or 8 spaces |
| DirEntry.SetAkaiName | src/main/fat/FatDirectoryEntry.cpp:9-23 | succeeds exactly when both the short name and the Akai part are accepted; a refused short name changes nothing; an accepted one is written even when the Akai part is then refused; bytes 11 and 20 onwards never change |
| FatFile.Get | src/main/fat/FatFile.hpp:24-38 | a directory entry is refused; a file opens on its chain when the chain opens and holds at least the entry's length |
| FatFile.GetLength | src/main/fat/FatFile.hpp:40-44 | fails exactly for an invalid file, and otherwise gives the entry's 32-bit length |
| FatFile.SetLength | src/main/fat/FatFile.hpp:46-55 | refuses an unwritable file with nothing changed, does nothing when the length is unchanged, and otherwise resizes the chain so that the entry reads back the new length with the chain less than one cluster longer |
| FatFile.Grows | src/main/fat/FatFile.hpp:51-53 | with enough free clusters, `setSize` succeeds and the new start cluster fits the 16-bit field |
| FatFile.Read | src/main/fat/FatFile.hpp:57-68 | an invalid file is refused, an empty read does nothing, and a read past the entry's length fails with end of file |
| FatFile.ReadThrough | src/main/fat/FatFile.hpp:57-68 | a read within the length is exactly the chain's `readData` |
| FatFile.Write | src/main/fat/FatFile.hpp:70-80 | an unwritable file is refused with nothing changed; a write past the end first sets the length to its last byte; a completed write consumes the buffer and, when the file fits, reads back |
| FatFile.Store | src/main/fat/FatFile.hpp:79 | the chain write of `write`: the directory store is kept, and within the length a completed write reads back |
| FatFile.Flush | src/main/fat/FatFile.hpp:82-84 | succeeds exactly for a valid, writable file |
| Directory.New | src/main/fat/AbstractDirectory.cpp:8-10 | a new table has no entries and no label, so its size is 0, and it is well formed whenever its capacity is not negative |
| Directory.SetEntries | src/main/fat/AbstractDirectory.cpp:12-17 | a list longer than the capacity is refused with "too many entries"; any other list replaces the entries and leaves the rest of the table alone |
| Directory.SizeChanged | src/main/fat/AbstractDirectory.cpp:19-26 | a new byte size is refused when it holds more than INT_MAX entries; otherwise only the capacity changes, to the number of whole 32-byte slots in the size |
| Directory.ChangeSize | src/main/fat/Fat16RootDirectory.hpp:27-31 | the root region never grows: it accepts exactly the counts up to its capacity and changes nothing; a chain directory refuses more than 65536 entries and otherwise ends with room for the count, less than one cluster more than `max(n * 32, clusterSize)` |
| Directory.StorageCluster | src/main/fat/ClusterChainDirectory.hpp:63-65 | 0 for the root region and for a root kept in a chain; otherwise the chain's first cluster |
| Directory.AddEntry | src/main/fat/AbstractDirectory.cpp:94-101 | a table with a free slot takes the entry at the end with nothing else changed; a full one is grown first, and a full root region refuses; a completed add keeps the table well formed |
| Directory.EraseFirst | src/main/fat/AbstractDirectory.cpp:106-109 | erasing removes exactly one occurrence of the entry, and a list without it is unchanged |
| Directory.RemoveEntry | src/main/fat/AbstractDirectory.cpp:103-112 | the first occurrence of the entry is removed and the table is then resized to the slots still in use; the root region completes exactly when those slots fit its capacity |
| Directory.CheckRoot | src/main/fat/AbstractDirectory.cpp:154-157 | passes exactly for a root directory |
| Directory.GetLabel | src/main/fat/AbstractDirectory.cpp:114-118 | only a root directory has a label, and it is the stored one |
| Directory.SetLabel | src/main/fat/AbstractDirectory.cpp:145-152 | succeeds exactly on a root directory with a label of at most 11 characters, failing with "not root" before "too long"; only the label changes |
| Directory.WriteEntries | src/main/fat/AbstractDirectory.cpp:74-77 | the listed entries' records land one after another at the position, and nothing else in the buffer changes |
| Directory.ImageEnd | src/main/fat/AbstractDirectory.cpp:86-87 | a terminated image ends with a zero record right after the entries and the label |
| Directory.Serialise | src/main/fat/AbstractDirectory.cpp:74-89 | a buffer of enough slots ends up holding the image: the entries, the label record, and an end-of-listing record when a slot is left |
| Directory.FlushBuffer | src/main/fat/AbstractDirectory.cpp:70-92 | as written: succeeds exactly when the list fits the capacity, cleaning every entry; a longer list overruns the buffer after cleaning the entries that fit; the image is one slot longer than the table exactly when there is a label and the table is full |
| Directory.BoundedFlushBuffer | src/main/fat/AbstractDirectory.cpp:70-92 | with the label counted among the slots, a table whose entries and label do not fit is refused as full; an accepted one is cleaned and its image fits the table |
| Directory.FlushesAgree | src/main/fat/AbstractDirectory.cpp:70-92 | where the flush as written does not spill a slot, it and the bounded flush produce the same image |
| Directory.ReadSlots | src/main/fat/AbstractDirectory.cpp:28-48 | reading `capacity` slots fails only on a label outside the root; it lists at most that many entries, and a label only in a root directory |
| Directory.NullEndsListing | src/main/fat/AbstractDirectory.cpp:34-37 | a zero first byte ends the listing: the skipped slot does not advance the buffer, so nothing after it is read |
| Directory.ReadSlotsRecords | src/main/fat/AbstractDirectory.cpp:34-47 | the loop over the slots lists exactly what the records in them list |
| Directory.ReadSlotsListable | src/main/fat/AbstractDirectory.cpp:34-47 | every entry `read()` lists is a clean entry of the directory's access mode that is neither an end-of-listing record nor a label |
| Directory.ListEntries | src/main/fat/AbstractDirectory.cpp:44-46 | listable records are listed in order, as fresh entries, in front of what follows |
| Directory.ListLabel | src/main/fat/AbstractDirectory.cpp:39-43 | in a root directory a label record sets the label, unless a later one replaces it |
| Directory.ListImage | src/main/fat/AbstractDirectory.cpp:28-92 | the slots of a flushed image list its entries and its label, whatever follows the end-of-listing record |
| Directory.ReadBack | src/main/fat/AbstractDirectory.cpp:28-92 | reading back a buffer that starts with a flushed image lists the flushed entries, as fresh entries with the same records, and the same label |
| Directory.Load | src/main/fat/AbstractDirectory.cpp:28-48 | `read()` fails exactly when the listing does; otherwise the entries read are appended after the existing ones, each in a new cell, and a label read replaces the label |
| Directory.LoadBack | src/main/fat/AbstractDirectory.cpp:28-92 | loading a flushed image into an empty directory of the same shape gives back the flushed entries, in order, and the label |
| RootDirectory.New | src/main/fat/Fat16RootDirectory.hpp:34-41 | the root table exists exactly when the boot sector's root entry count is positive; it is empty, and sits at the root directory offset with that many slots |
| RootDirectory.NewAt | src/main/fat/Fat16RootDirectory.hpp:34-41 | the constructor on an offset and a count: a count that is not positive is refused |
| RootDirectory.Read | src/main/fat/Fat16RootDirectory.hpp:43-48 | a non-positive entry count is refused, and so is a table that runs past the end of the device; a read table is a well-formed root at the root offset |
| RootDirectory.ReadAt | src/main/fat/Fat16RootDirectory.hpp:12-16 | the read on an offset and a count, with the same refusals |
| RootDirectory.Flush | src/main/fat/Fat16RootDirectory.hpp:18-20 | as written: a list longer than the capacity overruns; otherwise the flush completes exactly when the buffer fits the device, the image lands at the root offset and no other device byte changes |
| RootDirectory.FlushSpills | src/main/fat/AbstractDirectory.cpp:71-72 | with a label and a full table, the flush as written zeroes the 32 device bytes right after the root table |
| RootDirectory.BoundedFlush | src/main/fat/Fat16RootDirectory.hpp:18-20 | the corrected flush: a table whose entries and label do not fit is refused as full; an accepted one writes its image within the table's own bytes and leaves every byte outside the table alone |
| RootDirectory.Create | src/main/fat/Fat16RootDirectory.hpp:50-55 | creation succeeds exactly when the entry count is positive and the table fits the device; the new table is empty and writable, and its first slot on the device is an end-of-listing record |
| RootDirectory.RoundTrip | src/main/fat/Fat16RootDirectory.hpp:43-48 | a device holding a flushed root table reads back as the same entries, in order, as fresh entries with the same records, and the same label |
| RootDirectory.RoundTripAt | src/main/fat/Fat16RootDirectory.hpp:12-20 | the same round trip at any offset and positive capacity |
| ChainDirectory.New | src/main/fat/ClusterChainDirectory.hpp:44-48 | the directory exists exactly when the chain's length on disk can be measured; it is empty, and its capacity is the number of whole 32-byte slots in that length |
| ChainDirectory.Delete | src/main/fat/ClusterChainDirectory.hpp:59-61 | deleting keeps the FAT well formed and changes only the chain's start |
| ChainDirectory.DeleteFrees | src/main/fat/ClusterChainDirectory.hpp:59-61 | deleting a sound chain succeeds, leaves it empty and frees every cluster it had |
| ChainDirectory.Write | src/main/fat/ClusterChainDirectory.hpp:15-25 | the buffer's remaining bytes go to the chain from byte 0, and a chain already long enough is not resized; after a completed write the chain reads zeros from the end of those bytes to its end, and a chain no longer than the bytes reads them back |
| ChainDirectory.Fill | src/main/fat/ClusterChainDirectory.hpp:20-24 | the zero fill writes zeros from the end of the window to the end of the chain without resizing it |
| ChainDirectory.WrittenImage | src/main/fat/ClusterChainDirectory.hpp:15-25 | what a write from a flipped buffer leaves is what a flush of those bytes promises |
| ChainDirectory.Flush | src/main/fat/AbstractDirectory.cpp:70-92 | a list longer than the capacity overruns with nothing written; a completed flush cleans the entries; the chain then reads zeros past the flush buffer, and reads back the image when it is no longer than the buffer |
| ChainDirectory.DotEntry | src/main/fat/AbstractDirectory.cpp:129-138 | a "." or ".." entry is a directory of length 0 with that name, created exactly when its start cluster passes `setStartCluster` |
| ChainDirectory.OneCluster | src/main/fat/AbstractDirectory.cpp:121-122 | `setChainLength(1)` on an empty chain takes one free data cluster, marks it as the end of the chain and gives a chain of one cluster's bytes |
| ChainDirectory.SubDir | src/main/fat/AbstractDirectory.cpp:127-138 | "." and ".." are added in that order to a new directory; a table with two slots takes them without growing |
| ChainDirectory.Populate | src/main/fat/AbstractDirectory.cpp:127-140 | when the one cluster holds whole slots and at least two, the flushed table starts with the "." and ".." records and the FAT is not changed again |
| ChainDirectory.CreateSub | src/main/fat/AbstractDirectory.cpp:120-143 | the new entry is a directory of length 0 starting at a cluster that was free; that cluster becomes a one-cluster chain whose table starts with "." pointing at it and ".." pointing at the parent's storage cluster |
| LfnEntry.TotalEntrySize | src/main/fat/AkaiFatLfnDirectoryEntry.hpp:24-28 | a name needs one long-name slot per started run of 13 characters plus the real entry: the slots hold the whole name, and a non-empty name leaves less than a slot's worth unused |
| LfnEntry.CreatePart | src/main/fat/AkaiFatLfnDirectoryEntry.hpp:30-74 | the slot exists exactly when the ordinal, plus 0x40 on the last part, fits a byte; it carries that byte, the long-name attributes 0x0f, a zero reserved byte, the checksum, a zero cluster field and the 13 characters as 16-bit units, a 0 after the text and 0xff after that |
| LfnEntry.PartReadsBack | src/main/fat/AkaiFatLfnDirectoryEntry.hpp:30-74 | a slot made from a text without NUL characters reads back as the text's first 13 characters |
| LfnEntry.CompactForm | src/main/fat/AkaiFatLfnDirectoryEntry.hpp:250-289 | a "." or ".." real entry is stored alone; a name that is its own short name is written into the real entry, which is stored alone; any other name gets long-name slots in front of the real entry, refused only when the ordinal byte would overflow |
| LfnEntry.CompactChunks | src/main/fat/AkaiFatLfnDirectoryEntry.hpp:275-286 | each slot of a long form reads back as its 13-character piece of the name, the last part first |
| LfnEntry.Extract | src/main/fat/AkaiFatLfnDirectoryEntry.hpp:93-121 | a group with long-name slots reads as their parts joined from the last slot back, trimmed; a lone real entry whose short name cannot be read fails |
| LfnEntry.ExtractCompactForm | src/main/fat/AkaiFatLfnDirectoryEntry.hpp:93-289 | extracting the long form of a name without NUL characters gives back the name, trimmed |
| LfnEntry.GetAkaiPart | src/main/fat/AkaiFatLfnDirectoryEntry.hpp:182-185 | a directory has no Akai part; a file's is at most 8 characters |
| LfnEntry.SetAkaiPart | src/main/fat/AkaiFatLfnDirectoryEntry.hpp:187-191 | a directory is left alone; a file's part is set exactly when the Akai part constructor accepts it, only bytes 12 to 19 change and the entry is not marked dirty |
| LfnEntry.AkaiPartRoundTrip | src/main/fat/AkaiFatLfnDirectoryEntry.hpp:182-191 | a valid Akai part with no leading or trailing blanks, set on a file entry, reads back as itself |
| LfnEntry.GetAkaiName | src/main/fat/AkaiFatLfnDirectoryEntry.hpp:165-180 | the Akai name fails exactly when the Akai part does; it is the short name with the Akai part put before its last dot, or at the end when there is no dot |
| LfnEntry.AkaiNameHoldsPart | src/main/fat/AkaiFatLfnDirectoryEntry.hpp:165-191 | an Akai part set on a file entry shows up in its Akai name between the short name's base and its extension |
| LfnEntry.NewReal | src/main/fat/AkaiFatLfnDirectoryEntry.hpp:77-81 | the constructor succeeds exactly when `setAkaiName` does on a fresh entry; the real entry is a file or a directory as asked, clean, of length 0 at cluster 0, and holds the short name of the name's first 8 characters and extension |
| LfnEntry.GetName | src/main/fat/AkaiFatLfnDirectoryEntry.hpp:159-163 | the name is given exactly for a valid entry |
| LfnEntry.SetFlag | src/main/fat/AkaiFatLfnDirectoryEntry.hpp:127-157 | an unwritable entry is refused; otherwise the attribute bit ends up as asked and every disjoint attribute bit is kept |
| LfnDirectory.IsFreeName | src/main/fat/AkaiFatLfnDirectory.cpp:72-74 | a name is free exactly when its lower-case form is not in the used set |
| LfnDirectory.CheckUniqueName | src/main/fat/AkaiFatLfnDirectory.cpp:183-191 | the check passes exactly for a free name and otherwise fails as "already exists" |
| LfnDirectory.CaseBlindNames | src/main/fat/AkaiFatLfnDirectory.cpp:72-74 | two names that differ only in case are free, and pass the uniqueness check, together or not at all |
| LfnDirectory.GetEntryAsWritten | src/main/fat/AkaiFatLfnDirectory.cpp:114-117 | as written: an entry is found exactly when the name as given is a key, which in an index of lower-case keys means the name is already lower case |
| LfnDirectory.GetEntry | src/main/fat/AkaiFatLfnDirectory.cpp:114-117 | corrected: an entry is found exactly when the name's lower-case form is a key, and it is the entry under that key |
| LfnDirectory.GetEntryMissesCase | src/main/fat/AkaiFatLfnDirectory.cpp:114-117 | for an indexed name spelt with an upper-case letter, the lookup as written finds nothing and the corrected one finds the entry |
| LfnDirectory.GetEntryAgreesOnLowerCase | src/main/fat/AkaiFatLfnDirectory.cpp:114-117 | on lower-case names the two lookups agree |
| LfnDirectory.Register | src/main/fat/AkaiFatLfnDirectory.cpp:220-226 | a name whose lower-case form is in use is refused; otherwise that form goes into the used set and the index, pointing at the group's real entry |
| LfnDirectory.Parse | src/main/fat/AkaiFatLfnDirectory.cpp:193-228 | a completed scan keeps every name already indexed and adds only names of live real entries found in the table from the position; afterwards the used set is exactly the index's keys, each the lower-case form of its entry's name |
| LfnDirectory.Open | src/main/fat/AkaiFatLfnDirectory.cpp:10-13 | a directory opened on a table has no cached files or directories, its used set is exactly its index's keys, and every indexed name belongs to a live real entry of the table |
| LfnDirectory.ParseSkips | src/main/fat/AkaiFatLfnDirectory.cpp:220 | a group whose real entry is deleted is passed over |
| LfnDirectory.GroupRegisters | src/main/fat/AkaiFatLfnDirectory.cpp:220-226 | a group whose real entry is live leaves its name in use |
| LfnDirectory.ParseClashes | src/main/fat/AkaiFatLfnDirectory.cpp:220-226 | a second scan, with every name the first registered still in use, fails at the first group the first scan registered |
| LfnDirectory.ParseAgainFails | src/main/fat/AkaiFatLfnDirectory.cpp:10-13 | running the scan again, with the names a first scan registered still in use, fails with the name in use whenever the first scan registered any |
| LfnDirectory.SortedKeys | src/main/fat/AkaiFatLfnDirectory.cpp:233-235 | the keys in `std::map` order: each key once and strictly ascending |
| LfnDirectory.SortedUnique | src/main/fat/AkaiFatLfnDirectory.cpp:233-235 | any strictly ascending listing of exactly the keys is that order |
| LfnDirectory.Listing | src/main/fat/AkaiFatLfnDirectory.cpp:230-236 | one real entry per indexed name, in key order |
| LfnDirectory.ListingHasNames | src/main/fat/AkaiFatLfnDirectory.cpp:233-235 | every indexed name's real entry is listed |
| LfnDirectory.ListingOfNames | src/main/fat/AkaiFatLfnDirectory.cpp:233-235 | every listed real entry belongs to an indexed name |
| LfnDirectory.UpdateLfn | src/main/fat/AkaiFatLfnDirectory.cpp:230-239 | the table is resized to the number of names and then holds exactly the listing; the root region refuses when the names outnumber its slots |
| LfnDirectory.UpdateLfnWritesNoSlots | src/main/fat/AkaiFatLfnDirectory.cpp:230-239 | the rebuilt table has one entry per name and no long-name slots, however long the names are |
| LfnDirectory.GetFile | src/main/fat/AkaiFatLfnDirectory.cpp:27-38 | a cached file is returned as it is; otherwise the file opens as `FatFile::get` opens it, a directory entry is refused, and the new file is cached |
| LfnDirectory.GetFileCached | src/main/fat/AkaiFatLfnDirectory.cpp:27-38 | asking again for the same entry gives the same file and changes nothing |
| LfnDirectory.AddFileAsWritten | src/main/fat/AkaiFatLfnDirectory.cpp:55-70 | as written: the new file is indexed but its name is not put in the used set |
| LfnDirectory.AddFile | src/main/fat/AkaiFatLfnDirectory.cpp:55-70 | corrected: an unwritable directory and a name in use are refused; the add succeeds exactly when the name makes a real entry and the table takes it; the file is indexed, its name registered, and the index invariants are kept |
| LfnDirectory.AddThenGet | src/main/fat/AkaiFatLfnDirectory.cpp:55-117 | corrected add and lookup: after adding a file, its name in any spelling finds the new entry |
| LfnDirectory.AddTwiceRefused | src/main/fat/AkaiFatLfnDirectory.cpp:55-70 | corrected add: adding the same name again, in any spelling, is refused and changes nothing |
| LfnDirectory.AddTwiceAsWritten | src/main/fat/AkaiFatLfnDirectory.cpp:55-70 | as written, a name just added is still free; a second add of it replaces the first file in the index while both real entries stay in the table |
| LfnDirectory.Unlink | src/main/fat/AkaiFatLfnDirectory.cpp:152-173 | with `unlinkEntry`'s two asserts holding (an undotted name indexed and in use): a dotted name is passed over; any other is dropped from the index and the used set, and its real entry from the file or directory cache, with nothing else changed |
| LfnDirectory.UnlinkChecked | src/main/fat/AkaiFatLfnDirectory.cpp:152-173 | `unlinkEntry` for any name: it completes exactly when its asserts hold, as `Unlink`; a name not indexed, or indexed but not in use, stops at a failed assert, the second one after the name has left the index |
| LfnDirectory.Remove | src/main/fat/AkaiFatLfnDirectory.cpp:132-149 | corrected (lookup by the lower-case name): an unwritable directory is refused, a missing name does nothing, and a found name is no longer found, its key leaves the index and the used set, and the table is the new listing; a name indexed but not in use stops at `unlinkEntry`'s assert |
| LfnDirectory.RemoveAsWritten | src/main/fat/AkaiFatLfnDirectory.cpp:132-149 | as written (lookup by the name as given): an unwritable directory is refused; a name that is not a key does nothing; a key not in use stops at `unlinkEntry`'s assert; a removed key leaves the index and the used set and the table is the new listing |
| LfnDirectory.RemoveAgreesOnLowerCase | src/main/fat/AkaiFatLfnDirectory.cpp:114-149 | on a lower-case name the remove as written and the corrected one agree |
| LfnDirectory.RemoveAsWrittenMissesCase | src/main/fat/AkaiFatLfnDirectory.cpp:114-149 | for an indexed name spelt with an upper-case letter, the remove as written changes nothing, while the corrected one takes the name out of the index |
| LfnDirectory.AddThenRemove | src/main/fat/AkaiFatLfnDirectory.cpp:55-149 | corrected: adding a file and removing it by the same name takes the name out of the index and leaves the used set as it was; where the used set was the index's keys, the index is as it was too |
| LfnDirectory.AddThenRemoveAsWritten | src/main/fat/AkaiFatLfnDirectory.cpp:55-173 | as written, a file just added cannot be removed: by its lower-case name the remove stops at `unlinkEntry`'s second assert, because the name was never put in use, and by any other spelling it changes nothing |
| LfnDirectory.LinkEntryAsWritten | src/main/fat/AkaiFatLfnDirectory.cpp:175-181 | as written: the entry is indexed but its name is not put in the used set |
| LfnDirectory.LinkEntry | src/main/fat/AkaiFatLfnDirectory.cpp:175-181 | corrected: an invalid entry and a name in use are refused; a linked entry has its Akai name written, is indexed with its name registered, and the index invariants are kept |
| LfnDirectory.LinkAsWrittenLeavesFree | src/main/fat/AkaiFatLfnDirectory.cpp:175-181 | as written, a linked name stays free, so the used set no longer matches the index |
| LfnDirectory.UnlinkThenLink | src/main/fat/AkaiFatLfnDirectory.cpp:152-181 | corrected link: unlinking an indexed entry passes exactly when its name is in use, frees the name, and linking the entry back gives back the index and the used set |
| LfnDirectory.UnlinkThenLinkAsWritten | src/main/fat/AkaiFatLfnDirectory.cpp:152-181 | as written, unlinking an entry in use and linking it back gives back the index, but the name has left the used set and is free |
| LfnDirectory.SetName | src/main/fat/AkaiFatLfnDirectoryEntry.hpp:198-210 | corrected (new name put in use): an unwritable entry and a new name in use are refused; a rename moves the entry from its old key to the new name's, writes the new Akai name and keeps the invariants; an entry whose name is not in use stops at `unlinkEntry`'s assert |
| LfnDirectory.SetNameAsWritten | src/main/fat/AkaiFatLfnDirectoryEntry.hpp:198-210 | as written: an entry whose name is not in use (added or linked in this session) stops at `unlinkEntry`'s assert; a rename moves the entry to the new name's key and drops the old name from the used set without adding the new one |
| LfnDirectory.RenameThenGet | src/main/fat/AkaiFatLfnDirectoryEntry.hpp:198-210 | corrected rename and lookup: the entry is found under the new name in any spelling and no longer under the old one, unless the two differ only in case |
| LfnDirectory.RenameAsWrittenLeavesFree | src/main/fat/AkaiFatLfnDirectoryEntry.hpp:198-210 | as written, after a rename both the new name, though indexed, and the old name are free |
| LfnDirectory.MoveTo | src/main/fat/AkaiFatLfnDirectoryEntry.hpp:212-226 | corrected (new name put in use in the target): an unwritable entry and a name in use in the target are refused; a move drops the entry from the source's index and used set and adds it to the target's under the new name, with its Akai name written |
| LfnDirectory.MoveToAsWritten | src/main/fat/AkaiFatLfnDirectoryEntry.hpp:212-226 | as written: an entry whose name is not in use in its directory stops at `unlinkEntry`'s assert; a move indexes the entry in the target under the new name, which stays free there |
| LfnDirectory.FlushFiles | src/main/fat/AkaiFatLfnDirectory.cpp:122-123 | the files flush exactly when every cached file can, and a failure is one of the files' own |
| LfnDirectory.WriteTable | src/main/fat/AkaiFatLfnDirectory.cpp:129 | the table is written out as the program does: a root table goes through the root flush as written, so with a label and a full table it writes one slot past the region; it completes exactly when the entries fit the capacity and the device holds the flush buffer, with the image at the root offset; its entries are cleaned |
| LfnDirectory.Flush | src/main/fat/AkaiFatLfnDirectory.cpp:119-130 | an unwritable directory is refused, then a file that cannot flush; a completed flush rebuilds the table from the index, cleans the entries and writes it out through the flush as written; in the root region it completes exactly when the rebuilt table fits and the device holds the buffer |
| LfnDirectory.MakeSub | src/main/fat/AkaiFatLfnDirectory.cpp:92-95 | a made sub-directory entry is a new directory of length 0 at a data cluster, holding the name's short name, and exists only when the name makes a short name and an Akai name |
| LfnDirectory.AddDirectory | src/main/fat/AkaiFatLfnDirectory.cpp:88-112 | corrected (trimmed name put in use): an unwritable directory and a name in use are refused; a completed add indexes the trimmed name with the new directory entry, registers it, caches the directory and rewrites the table from the index |
| LfnDirectory.AddDirectoryAsWritten | src/main/fat/AkaiFatLfnDirectory.cpp:88-112 | as written: the trimmed name is indexed with the new directory entry, the used set is unchanged, and a name that was free stays free |
| FileSystem.CompareCopies | src/main/fat/AkaiFatFileSystem.cpp:20-29 | comparing by value, the loop passes exactly when every further FAT copy reads and matches the first; when every copy reads, a failure is "FAT differs" |
| FileSystem.AsWrittenRejectsCopies | src/main/fat/AkaiFatFileSystem.cpp:24-27 | with `equals` as written, the second copy is refused whenever it can be read, because its type object is not the first copy's |
| FileSystem.LoadFat | src/main/fat/AkaiFatFileSystem.cpp:13-29 | a boot sector that cannot be read, or that gives no FATs, is refused; a loaded volume has a readable geometry, its FAT is copy 0, and unless differences are ignored every further copy matches it |
| FileSystem.LoadRoot | src/main/fat/AkaiFatFileSystem.cpp:31-33 | the root table is read from the root region into a fresh store, with no cached files or directories, and every name it indexes belongs to a live real entry of the table |
| FileSystem.RootAddAsWritten | src/main/fat/AkaiFatLfnDirectory.cpp:55-70 | the program's own `addFile` on the root, which leaves the name out of the used set, keeps the volume valid: the name is indexed and still free |
| FileSystem.Mount | src/main/fat/AkaiFatFileSystem.cpp:8-35 | corrected: the boot sector and FAT-count refusals as written; a mounted volume is open with the asked access mode, its FAT is copy 0, every further copy matches it unless differences are ignored, and its root names come from the table, parsed once |
| FileSystem.MountAsWritten | src/main/fat/AkaiFatFileSystem.cpp:8-35 | as written: a boot sector that cannot be read is refused, and a mounted volume has a readable geometry and a FAT of that geometry |
| FileSystem.MountAsWrittenRejectsCopies | src/main/fat/AkaiFatFileSystem.cpp:20-28 | as written, with two or more FATs and differences not ignored, any volume whose first two copies can be read is refused, identical copies included |
| FileSystem.MountAsWrittenRejectsNames | src/main/fat/AkaiFatFileSystem.cpp:33-34 | as written, the second `parseLfn` refuses every volume whose root holds a name that the first parse indexed |
| FileSystem.GetVolumeLabel | src/main/fat/AkaiFatFileSystem.cpp:42-46 | a closed file system is refused; otherwise the root directory's label, at most 11 characters |
| FileSystem.SetVolumeLabel | src/main/fat/AkaiFatFileSystem.cpp:48-56 | a closed, then a read-only file system and then a label over 11 characters are refused with nothing changed; the label is set exactly when the boot sector also takes it, and then reads back from the root and is stored in the dirty boot sector; a label the boot sector refuses is left set on the root, and the boot sector keeps the characters `set8` stored before it threw |
| FileSystem.WriteCopies | src/main/fat/AkaiFatFileSystem.cpp:66-68 | the FAT copies are written in turn, and the loop completes exactly when they all fit the device; every copy that fits then holds the FAT, a copy that runs past the device throws with the earlier copies written, and no byte before the first copy or from the root region on changes |
| FileSystem.WriteMeta | src/main/fat/AkaiFatFileSystem.cpp:62-68 | the boot sector, when dirty, and every FAT copy are written in turn; the writes complete exactly when the copies fit the device, every copy that fits holds the FAT even when a later one throws, the boot sector is clean, and a dirty one lands in the first 512 bytes |
| FileSystem.MetaWritten | src/main/fat/AkaiFatFileSystem.cpp:62-68 | when the writes complete, every FAT copy on the device holds the table |
| FileSystem.Flush | src/main/fat/AkaiFatFileSystem.cpp:58-71 | a closed file system is refused; the flush completes exactly when the boot sector, the FAT copies and the root directory can all be written; when a FAT copy throws, the result keeps the boot sector and the copies already written; afterwards every copy holds the FAT, the boot sector is clean, and the root table is its listing with clean entries |
| FileSystem.FlushRoot | src/main/fat/AkaiFatFileSystem.cpp:70 | the root directory flushed after the boot sector and the FAT copies: it completes exactly when the rebuilt table fits its region and then keeps every FAT copy and the boot sector's bytes; an abort keeps the written, clean boot sector |
| FileSystem.LabelReread | src/main/fat/AkaiFatFileSystem.cpp:62-64 | a boot sector written out by the flush reads back with the same label |
| FileSystem.Close | src/main/AbstractFileSystem.hpp:17-25 | closing a closed file system does nothing; a read-only one is marked closed; a writable one is flushed and closed exactly when the flush completes, and left open otherwise |
| FileSystem.GetFreeSpace | src/main/fat/AkaiFatFileSystem.cpp:87-92 | corrected: a closed file system is refused; otherwise the free clusters times the cluster size, in full |
| FileSystem.GetFreeSpaceAsWritten | src/main/fat/AkaiFatFileSystem.cpp:87-92 | as written the product is taken in 32 bits: it always lies in the `int` range, agrees with the full product while that fits, and a product between 2^31 and 2^32 comes out negative |
| FileSystem.GetUsableSpace | src/main/fat/AkaiFatFileSystem.cpp:100-105 | a closed file system is refused; otherwise the data clusters times the cluster size |
| FileSystem.GetTotalSpace | src/main/fat/AkaiFatFileSystem.cpp:94-98 | a closed file system is refused; otherwise the total is unknown, reported as -1 |
| FileSystem.SpaceBounds | src/main/fat/AkaiFatFileSystem.cpp:87-105 | the free space is never negative and never more than the usable space, which in turn fits the data region |
| FileSystem.GetRoot | src/main/fat/AkaiFatFileSystem.cpp:73-78 | a closed file system is refused; otherwise the long-name root directory |
| FileSystem.GetBootSector | src/main/fat/AkaiFatFileSystem.cpp:80-85 | a closed file system is refused; otherwise the boot sector |
| Formatter.SectorsPerCluster16 | src/main/SuperFloppyFormatter.hpp:29-54 | succeeds exactly for one reserved sector, two FATs and a disk of more than 8400 and at most 4194304 sectors, and then gives the table's cluster size for the sector count |
| Formatter.ClusterTableShape | src/main/SuperFloppyFormatter.hpp:44-53 | every cluster size in the table is a power of two from 2 to 64, and a larger disk never gets smaller clusters |
| Formatter.RootDirectoryFits | src/main/SuperFloppyFormatter.hpp:69-76 | on a disk whose byte size fits an `int`, the root directory holds at most 512 entries, and its 32-byte entries take at most a fifth of the disk |
| Formatter.SectorsPerFatCovers | src/main/SuperFloppyFormatter.hpp:78-89 | the root directory sectors hold its entries, and the FAT size is the least count of sectors that, times `256 * sectorsPerCluster + fatCount`, covers the sectors after the reserved and root ones |
| Formatter.SectorsPerFatCopiesAgree | src/main/util/SuperFloppyFormatter.hpp:78-89 | the fixed-width copy, which casts the quotient through `uint32_t`, computes the same FAT size for every input |

## Left out

- **Block device and streams.** The device (`std::fstream` and the platform volume code) is a byte sequence, `Device`. Reads and writes outside it fail with `DevicePastEnd`. Real I/O errors, seeking and concurrency are not modelled.
- **Host byte order.** `getInt` reads in host byte order, which the model takes to be little-endian.
- **Corrupt FAT chains.** A chain that loops, or that points outside the table, makes the source loop forever or read out of bounds. The model walks chains with a fuel of the table's length and fails with `CorruptChain` instead. This is a weakening, not the source's behaviour.
- **Undefined behaviour.** An index outside a vector, a `size_t` underflow and a null dereference are excluded by `requires`. The model does not say what the program does then. Examples: the byte buffer's `get(dest)`/`put(data)` past the capacity, and `allocNew(0)`. The two `assert`s of `unlinkEntry` are `LfnDirectory.Unlink`'s `requires Unlinkable`; its callers go through `LfnDirectory.UnlinkChecked`, which ends with `AssertionFailed` where an assert fails, and what a build without asserts would do next is not modelled.
- **C division.** C++ integer division truncates toward zero. It is written out as `Bytes.CDiv` wherever an operand can be negative.
- **Mount preconditions.** `FileSystem.Mountable` requires a boot sector the FAT can be sized from, and a FAT of at least one entry. On other devices the source's arithmetic divides by zero or indexes an empty vector.
- **Sub-directory caching.** The model is a file system over its root directory. It leaves out `AkaiFatLfnDirectory::getDirectory` and `read(entry)`, and `ClusterChainDirectory::readRoot`/`read`, which open a sub-directory of the root lazily and cache it. Creating a sub-directory (`createSub`, `addDirectory`) is modelled.
- **`AkaiStrUtil::trim`.** This helper (`util/string_util.hpp`) is not part of this model. The set of characters it strips is a parameter (`ws`), and the trim itself is `StrUtil.Trim` over that set.
- **`ShortName::checkSum` and `FatDirectoryEntry::getLfnPart`.** They are not part of this model. The checksum is a parameter of `LfnEntry.CreatePart`. A slot's characters are read by `LfnEntry.LfnPart`, which follows the layout `createPart` writes.
- **`AkaiPart::validChars_`.** Its contents are not part of this model. It is an uninterpreted set of characters.
- **`hashCode`.** The hash codes of entries and names are not modelled, because no operation in the core depends on their values.
- **`Fat32`.** The `Fat32` type parameters are defined (`FatType.Fat32`), but no FAT32 volume is built, because the file system only mounts FAT16.
- **`NameGen`.** It is a stub in the source, and is modelled as the stub: its methods return empty strings or accept everything.
- **The formatter's output.** From `SuperFloppyFormatter`, only the geometry arithmetic is modelled (sectors per cluster, root directory size, sectors per FAT). `format()` and `initBootSector` write through the device and are left out.
- **Pointer identity.** `std::shared_ptr` identity is modelled by heap ids, and FAT type objects by a `typeId`. The model does not track memory lifetimes.
- Fat.AllocNewN: a negative count stands for the `length_error` that the `std::vector` constructor throws. It is reported as an `Aborted` result with the FAT unchanged, as in the source, where no cluster has been taken yet.
- ChainDirectory.Write: for a chain longer than the bytes written, the contract promises the zero tail. It does not promise that the written window still reads back after the fill. That would need a frame lemma for writes at disjoint chain offsets.
- ChainDirectory.Flush: like `ChainDirectory.Write`, it promises the read-back only for a chain no longer than the image.

## Findings

| source | as written | input that shows it | evidently intended | confidence | as-written member | corrected member |
|---|---|---|---|---|---|---|
| src/main/fat/Sector.hpp:40-43 | `set16` goes through `ByteBuffer::putShort`, which stores a zero byte and then the value's low byte | `set16(0x0b, 512)` on a zeroed boot sector: `getBytesPerSector()` then reads 0 | the 16-bit value stored little-endian, reading back `v mod 2^16` | not executed | Sector.Set16AsWrittenLosesValue | Sector.Set16 |
| src/main/fat/Sector.hpp:45-48 | `set32` does not store anything; it only marks the sector dirty | `set32` of 70000 into a zeroed 32-bit field reads back 0 | the 32-bit value stored little-endian | not executed | Sector.Set32AsWrittenLosesValue | Sector.Set32 |
| src/main/fat/Fat16BootSector.hpp:125-130 | `init` stores the sector size and the root entry count through `set16` | `init` on a fresh sector with 512-byte sectors leaves 0 bytes per sector and 0 root entries | 512 and 512 | not executed | BootSector.InitAsWrittenLosesGeometry | BootSector.Init |
| src/main/fat/Fat.hpp:262-274 | `equals` compares the `FatType` pointers, and `getFatType` makes a new object per call | two FAT copies with identical bytes compare unequal | equal when the types are the same kind and the layouts and entries agree | not executed | Fat.EqualsRejectsIdenticalCopies | Fat.EqualsByKind |
| src/main/fat/Fat.hpp:78-89 | the copy range check is `fatNr > getNrFats()` | `fatNr == getNrFats()` passes and reads a table from the root directory region | only the copies `0 .. getNrFats() - 1` are read; the mount reads only those, where both reads agree | not executed | Fat.ReadPastLastCopy | Fat.ReadCopy |
| src/main/fat/AbstractDirectory.cpp:70-92 | the flush buffer holds `capacity` slots, but a volume label takes one more | a root directory with a label whose table is full writes 32 bytes past the table | a table whose entries and label do not fit is refused | not executed | RootDirectory.FlushSpills | RootDirectory.BoundedFlush |
| src/main/fat/AkaiFatFileSystem.cpp:20-28 | the constructor compares the FAT copies with `equals`, which compares type pointers | a volume with two byte-identical FATs, differences not ignored, is refused with `FatDiffers` | copies compared by value | not executed | FileSystem.MountAsWrittenRejectsCopies | FileSystem.Mount |
| src/main/fat/AkaiFatFileSystem.cpp:33-34 | the constructor runs `parseLfn` again over a root that the directory's own constructor has already parsed | a root holding any long name is refused with `NameInUse` | the names parsed once | not executed | FileSystem.MountAsWrittenRejectsNames | FileSystem.Mount |
| src/main/fat/AkaiFatFileSystem.cpp:87-92 | `getFreeSpace` multiplies two `int`s before widening the product | 40000 free clusters of 65536 bytes (4096-byte sectors, 16 per cluster) give a negative free space | the product taken in 64 bits | not executed | FileSystem.GetFreeSpaceAsWritten | FileSystem.GetFreeSpace |
| src/main/fat/AkaiFatLfnDirectory.cpp:114-117 | `getEntry` looks the name up as given, but the index keys are lower case | `getEntry("Kick")` for a file indexed as `kick` finds nothing | the name lower-cased before the lookup | not executed | LfnDirectory.GetEntryMissesCase | LfnDirectory.GetEntry |
| src/main/fat/AkaiFatLfnDirectory.cpp:55-70 | `addFile` indexes the new file but does not add its name to `usedAkaiNames` | adding the same name twice succeeds; the second file replaces the first in the index, and both stay in the table | the name registered, so a second add is refused | not executed | LfnDirectory.AddTwiceAsWritten | LfnDirectory.AddFile |
| src/main/fat/AkaiFatLfnDirectory.cpp:175-181 | `linkEntry` indexes the entry but does not add its name to `usedAkaiNames` | after unlinking and linking again, `isFreeName` still holds for the linked name | the name registered again | not executed | LfnDirectory.LinkAsWrittenLeavesFree | LfnDirectory.LinkEntry |
| src/main/fat/AkaiFatLfnDirectory.cpp:132-149 | `remove` finds the entry with `getEntry`, which looks the name up as given | `remove("Kick")` for a file indexed as `kick` changes nothing | the entry found by its lower-case name and removed | not executed | LfnDirectory.RemoveAsWrittenMissesCase | LfnDirectory.Remove |
| src/main/fat/AkaiFatLfnDirectory.cpp:55-173 | `addFile` leaves the name out of `usedAkaiNames`, and `unlinkEntry` asserts that it is there | `addFile("kick")` then `remove("kick")` fails the assert in `unlinkEntry` | the file removed and the used names as before the add | not executed | LfnDirectory.AddThenRemoveAsWritten | LfnDirectory.AddThenRemove |
| src/main/fat/AkaiFatLfnDirectoryEntry.hpp:198-210 | `setName` relinks through `linkEntry`, which does not put the new name in `usedAkaiNames` | after renaming an entry to `snare`, `isFreeName("snare")` still holds | the new name in use | not executed | LfnDirectory.RenameAsWrittenLeavesFree | LfnDirectory.SetName |
| src/main/fat/AkaiFatLfnDirectory.cpp:88-112 | `addDirectory` indexes the new directory but does not put its name in `usedAkaiNames` | after `addDirectory("loops")`, `isFreeName("loops")` still holds | the name in use | not executed | LfnDirectory.AddDirectoryAsWritten | LfnDirectory.AddDirectory |
