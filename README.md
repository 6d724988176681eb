# A verified model of static-frame's read-only ZIP reader and `HLoc`

This project models two parts of static-frame in Dafny.

**The read-only ZIP reader** (`static_frame/core/archive_zip.py`) is a trimmed copy of the
standard library's `zipfile` reader. It only reads archives whose entries are stored
(uncompressed). The model covers these parts:

- **Record layouts.** The fixed-size records with their `struct` layouts: the end record,
  the ZIP64 locator and ZIP64 end record, the central-directory header and the local file
  header. Each layout is a list of little-endian field widths, and `Unpack`/`Pack` read and
  write those fields.
- **Locating the end record.** `_extract_end_archive` tries a fast path on the last 22
  bytes, then searches backward through the final 64 KiB + 22 bytes.
  `_end_archive_update_zip64` then reads the ZIP64 records if they are present.
- **Reading the directory.** `_read_contents` computes where the directory starts,
  including `concat`, the number of bytes prepended to the archive. It then walks the
  46-byte headers with a cursor and fills `_name_to_info`, a dictionary with insertion
  order.
- **The archive and its handles.** `ZipFileRO` holds a reference count over one file
  object. `_SharedFileRO` is a handle with its own position on that object. `open()` checks
  the entry's local file header.
- **The entry reader.** `ZipFilePartRO` keeps a read buffer, a byte count still to read
  from the file (`_compress_left`) and a byte count still to deliver (`_left`). Its
  operations are `read`, `_read1`, `_read2`, `peek`, `seek`, `tell` and `close`.

The file object is a class of its own, `ByteSource.OsFile`. Its contents do not change;
its position and its closed state do. It behaves like a regular binary file:

- seeking to a negative position raises `OSError`;
- reading at or past the end returns nothing;
- any operation on a closed file raises `ValueError`.

Name decoding (UTF-8 or cp437, chosen by flag bit 11) is a function-valued parameter
`decode`. A `None` result stands for `UnicodeDecodeError`.

The code's exceptions are modelled by a `Result` type with one `Error` kind per exception.
A `BadZipFile` carries the reason it was raised.

**`HLoc`** (`static_frame/core/hloc.py`) is a hierarchical key. `HLoc[key]` turns any key
into a non-empty tuple. It keeps a non-empty tuple as it is. Anything else becomes a
one-element tuple, and that includes the empty tuple, because `EMPTY_TUPLE` is Python's
only `()` object.

Modules, in dependency order:

- `Wrappers`: `Option`, `Result`, `Error`.
- `ByteCodec`: little-endian fields.
- `ZipRecords`: record layouts and their codecs.
- `ByteSource`: the file object.
- `EndLocator`: locating the end record.
- `Directory`: the directory walk and the name index.
- `LocalHeader`: the header checks of `open()`.
- `Archive`: the three classes.
- `HLocKeys`: `HLoc`.

Functions over byte sequences specify each operation. The classes' methods are proved
against those functions. A `ZipFileRO` keeps this invariant (`Valid`): the reference count
equals the number of live handles, plus one while the archive is open. The file object is
closed exactly when the count reaches zero, and only if the archive opened it itself.

## Model

| member | source | states |
|---|---|---|
| ByteCodec.DecodeEncode | static_frame/core/archive_zip.py:67 | an integer below 256^n is recovered from its n little-endian bytes (`<` in every struct format) |
| ByteCodec.EncodeDecode | static_frame/core/archive_zip.py:67 | n bytes are recovered by re-encoding their little-endian value in n bytes |
| ByteCodec.UnpackPack | static_frame/core/archive_zip.py:67-176 | `struct.unpack` of a record packed from fields that fit their widths gives the fields back |
| ByteCodec.PackUnpack | static_frame/core/archive_zip.py:67-176 | packing the unpacked fields of a record gives back its bytes |
| ZipRecords.EndArchiveSize | static_frame/core/archive_zip.py:67-69 | the end record layout `<4s4H2LH` takes 22 bytes |
| ZipRecords.CentralDirSize | static_frame/core/archive_zip.py:86-88 | the central-directory layout `<4s4B4HL2L5H2L` takes 46 bytes |
| ZipRecords.FileHeaderSize | static_frame/core/archive_zip.py:139-141 | the local-header layout `<4s2B4HL2L2H` takes 30 bytes |
| ZipRecords.Locator64Size | static_frame/core/archive_zip.py:157-159 | the ZIP64 locator layout `<4sLQL` takes 20 bytes |
| ZipRecords.End64Size | static_frame/core/archive_zip.py:163-165 | the ZIP64 end record layout `<4sQ2H2L4Q` takes 56 bytes |
| ZipRecords.DecodeEndArchive | static_frame/core/archive_zip.py:67-82 | the decoded record's signature is the first 4 bytes, every field fits its width, and the comment and location are the ones appended |
| ZipRecords.CommentSizeBound | static_frame/core/archive_zip.py:67-78 | the comment size field is 2 bytes, so no record announces more than 65535 comment bytes |
| ZipRecords.EndArchiveRoundTrip | static_frame/core/archive_zip.py:67-82 | decoding an encoded end record gives the record back |
| ZipRecords.EndArchiveBytesRoundTrip | static_frame/core/archive_zip.py:67-82 | encoding a decoded 22-byte end record gives the bytes back |
| ZipRecords.Locator64RoundTrip | static_frame/core/archive_zip.py:157-159 | decoding an encoded ZIP64 locator gives it back |
| ZipRecords.End64RoundTrip | static_frame/core/archive_zip.py:163-176 | decoding an encoded ZIP64 end record gives it back |
| ZipRecords.CentralDirRoundTrip | static_frame/core/archive_zip.py:86-109 | decoding an encoded central-directory header gives it back |
| ZipRecords.FileHeaderRoundTrip | static_frame/core/archive_zip.py:139-154 | decoding an encoded local file header gives it back |
| EndLocator.RFind | static_frame/core/archive_zip.py:342 | `rfind` gives the last occurrence of the signature, or -1 exactly when there is none |
| EndLocator.RFindSuffix | static_frame/core/archive_zip.py:338-342 | `rfind` on the bytes from `comment_max_start` on finds the last signature of the whole file at or after that start, or shows there is none |
| EndLocator.WindowStart | static_frame/core/archive_zip.py:338 | `comment_max_start` leaves the last 64 KiB + 22 bytes of the file to search, or the whole file when it is shorter |
| EndLocator.RecordAt | static_frame/core/archive_zip.py:345-354 | the record at a signature is decoded from the 22 bytes there; its comment is the bytes after it, as many as announced, cut short only by the end of the file |
| EndLocator.FastPath | static_frame/core/archive_zip.py:314-331 | the fast path fires exactly when the last 22 bytes start with `PK\005\006` and end with two zero bytes; it then gives the record at `filesize - 22` with an empty comment |
| EndLocator.SearchBackward | static_frame/core/archive_zip.py:338-360 | a found record sits at the last signature in the window, with 22 bytes after it; the search fails exactly when that last signature is too close to the end, or when there is no signature |
| EndLocator.LocateEndArchive | static_frame/core/archive_zip.py:307-360 | a file shorter than 22 bytes has no record; a found record has a signature at its location, inside the search window, with 22 bytes after it; a window without a signature gives no record |
| EndLocator.UpdateZip64 | static_frame/core/archive_zip.py:243-298 | the record comes back unchanged when no ZIP64 locator precedes it; a record that changes takes the ZIP64 signature and keeps its comment, comment size and location; the only errors are the multi-disk `BadZipFile` and an `OSError` from the unguarded second seek (the cases after a matching locator: `Zip64StepOutcomes`) |
| EndLocator.SearchFinds | static_frame/core/archive_zip.py:338-354 | the backward search returns the record at the last signature in the window |
| EndLocator.FastPathAgreesWithSearch | static_frame/core/archive_zip.py:314-360 | when no signature starts inside the last 22 bytes, the fast path and the search give the same record |
| EndLocator.RecordAtEncoded | static_frame/core/archive_zip.py:345-354 | a record written at some offset, followed by a comment no longer than announced, is read back with that comment and location |
| EndLocator.CommentRecovered | static_frame/core/archive_zip.py:301-360 | an archive ending in a record and its comment is located at the record, with the comment, whichever path finds it |
| EndLocator.Zip64RecordsRead | static_frame/core/archive_zip.py:243-298 | ZIP64 records written before the end record replace its counts, size and offset; a locator naming another disk or several disks raises `BadZipFile` |
| EndLocator.Zip64StepOutcomes | static_frame/core/archive_zip.py:243-298 | every outcome once a locator signature precedes the record: `MultiDisk` when the locator names another disk or several disks; `OSError` when fewer than 56 bytes precede the locator; the record unchanged when the 56 bytes before the locator lack `PK\x06\x06`; otherwise the record with those bytes' counts, size and offset |
| EndLocator.ExtractPlainArchive | static_frame/core/archive_zip.py:301-362 | an archive without ZIP64 records extracts to the record it was written with |
| EndLocator.ExtractEndArchive | static_frame/core/archive_zip.py:301-362 | `None` exactly when no record is located; a located record is handed to the ZIP64 step with its offset from the end of the file, and its outcome is returned; the located comment, comment size and location are kept; without a ZIP64 locator the located record is returned as it is; the only errors are the ZIP64 step's |
| EndLocator.ExtractZip64Archive | static_frame/core/archive_zip.py:243-362 | an archive with one-disk ZIP64 records before its end record extracts to the end record carrying the ZIP64 counts, directory size and directory offset, with its own comment and location |
| Directory.Insert | static_frame/core/archive_zip.py:1402 | dict assignment: the name maps to the new info; a new name is appended to the key order, a known one keeps its place |
| Directory.IndexKeys | static_frame/core/archive_zip.py:1402 | the dictionary's keys are exactly the entries' names |
| Directory.IndexOrder | static_frame/core/archive_zip.py:1402 | the keys are in the order of each name's first entry |
| Directory.IndexValues | static_frame/core/archive_zip.py:1402 | each key maps to the last entry with that name |
| Directory.DistinctNamesKeepOrder | static_frame/core/archive_zip.py:1402 | with distinct names, the keys are the names in directory order |
| Directory.DistinctNamesKeepInfo | static_frame/core/archive_zip.py:1402 | with distinct names, every entry is found under its own name |
| Directory.ConcatOffset | static_frame/core/archive_zip.py:1328-1331 | `concat` is what lies between the end of the directory, as its size and offset announce it, and the end record, less the 76 bytes of ZIP64 records when the record is a ZIP64 one |
| Directory.ConcatRecoversShift | static_frame/core/archive_zip.py:1328-1334 | for an archive shifted by `shift` bytes, `concat` is `shift` (with the 76 ZIP64 bytes taken off for a ZIP64 record), and `_start_dir` is the shifted directory offset |
| Directory.ParseEntry | static_frame/core/archive_zip.py:1347-1350 | an entry fails as a truncated directory exactly when fewer than 46 bytes remain |
| Directory.ParseFixed | static_frame/core/archive_zip.py:1352-1411 | a header fails on bad magic exactly when the signature is not `PK\001\002`; a parsed entry is stored, its header offset is the raw one plus `concat`, and it spans 46 + name + extra + comment bytes; a non-stored entry with a decodable name fails the assert |
| Directory.EntriesFrom | static_frame/core/archive_zip.py:1347-1411 | the walk yields nothing once `total` reaches `size_cd` |
| Directory.WalkAdvance | static_frame/core/archive_zip.py:1347-1411 | after one parsed entry, the walk is the entries so far plus that entry, continued 46+n+e+c bytes further |
| Directory.WalkStops | static_frame/core/archive_zip.py:1347-1411 | the first entry that fails to parse makes the whole walk fail with its error |
| Directory.ParseRecord | static_frame/core/archive_zip.py:1347-1411 | a well-formed stored record, whatever follows it, parses to its info and its exact length |
| Directory.DirectoryRoundTrip | static_frame/core/archive_zip.py:1347-1411 | a directory written from well-formed stored records walks back to exactly their infos, in order, with `concat` added to each header offset |
| Directory.ReadContentsOutcomes | static_frame/core/archive_zip.py:1313-1340 | `_read_contents` (`Directory.ReadContents`) on the file's bytes: a file shorter than 22 bytes, or one with no `PK\005\006` in its last 64 KiB + 22 bytes, is "File is not a zip file"; a success rests on a record whose signature lies in that window with 22 bytes after it, and when no ZIP64 locator precedes that record, the directory read ends exactly where the record starts (its entries: `ArchiveRoundTrip`, `Zip64ArchiveRoundTrip`) |
| Directory.ReadContentsLocator | static_frame/core/archive_zip.py:261-270 | with a ZIP64 locator before the located record, `_read_contents` raises the multi-disk `BadZipFile` when the locator names another disk or several disks, and "File is not a zip file" when there is no room for the 56-byte ZIP64 record (the failed seek's `OSError` at 269, caught at 1317-1319) |
| Directory.EndRecordFindsDirectory | static_frame/core/archive_zip.py:1313-1340 | the end record of an archive behind `junk` is found, `concat` is `len(junk)`, and the directory is read back from the start it gives |
| Directory.ArchiveRoundTrip | static_frame/core/archive_zip.py:1313-1411 | an archive of entries, directory, end record and comment, prepended with junk, reads back to its directory's infos, with the junk length added to every header offset |
| Directory.Zip64RecordFindsDirectory | static_frame/core/archive_zip.py:1313-1340 | the ZIP64 end records of an archive behind `junk` are found, `concat` is `len(junk)` once the 76 ZIP64 bytes are taken off, and the directory is read back from the start the ZIP64 offset gives |
| Directory.Zip64ArchiveRoundTrip | static_frame/core/archive_zip.py:1313-1411 | a ZIP64 archive of entries, directory, ZIP64 records, end record and comment, prepended with junk, reads back to its directory's infos, with the junk length added to every header offset |
| LocalHeader.LocalHeaderCheck | static_frame/core/archive_zip.py:1660-1696 | a negative header offset raises `OSError`; fewer than 30 bytes raise "Truncated file header"; on success the magic matched, none of the refused flags is set, and the data starts after the 30-byte header; the local header's compression method is read but never checked, so a local header declaring deflate under a stored directory entry is opened and its raw bytes are delivered (`LocalHeader.LocalMethodIgnored`) |
| LocalHeader.HeaderBytes | static_frame/core/archive_zip.py:1660-1672 | a local header, name and extra field take 30 + n + e bytes |
| LocalHeader.LocalHeaderRoundTrip | static_frame/core/archive_zip.py:1660-1696 | a local header written at the recorded offset, with the directory's name and no refused flag, opens at the byte after header, name and extra field |
| LocalHeader.NameMismatchRejected | static_frame/core/archive_zip.py:1682-1691 | a local header whose name decodes to another name raises `BadZipFile` |
| LocalHeader.LocalMethodIgnored | static_frame/core/archive_zip.py:1660-1708 | the compression method in the local header never changes the outcome of `open()`: a local header declaring deflate under a directory entry marked stored is opened like a stored one |
| LocalHeader.EntryContent | static_frame/core/archive_zip.py:1079-1124 | a reader delivers at most `file_size` and at most `compress_size` bytes (`_read2` stops once `_compress_left` reaches 0, lines 1073-1074), and exactly `file_size` when `file_size <= compress_size` and the `compress_size` stored bytes are all in the file |
| LocalHeader.StoredEntryRoundTrip | static_frame/core/archive_zip.py:1660-1708 | a stored entry written behind its local header opens on its first byte, and a reader over it delivers exactly the written bytes |
| Archive.Clamp | static_frame/core/archive_zip.py:1155-1159 | the target of `seek` is clamped to `[0, file_size]` and is unchanged inside it |
| Archive.SharedFileRO.constructor | static_frame/core/archive_zip.py:802-805 | a handle on the archive's file object at a given position, calling back the archive's `_close` |
| Archive.SharedFileRO.Tell | static_frame/core/archive_zip.py:813-814 | the handle's own position, not that of the shared file object |
| Archive.SharedFileRO.Seek | static_frame/core/archive_zip.py:816-824 | moves the shared file object and takes up its position; whence 1 is relative to the file object's position, not the handle's; a closed file or a bad whence raises `ValueError`, a negative target `OSError` |
| Archive.SharedFileRO.Read | static_frame/core/archive_zip.py:826-835 | seeks the file object to the handle's position first, returns the bytes there and moves past them; a released handle raises `AttributeError` |
| Archive.SharedFileRO.Close | static_frame/core/archive_zip.py:837-841 | the first call gives one reference back to the archive, which closes a file it opened when none are left; later calls do nothing |
| Archive.ZipFileRO.constructor | static_frame/core/archive_zip.py:1434-1475 | an open archive with an empty name index and one reference |
| Archive.ZipFileRO.Create | static_frame/core/archive_zip.py:1414-1518 | `ZipFileRO(file)` has the entries and start that `_read_contents` gives; on failure the reference is given up and a file the archive opened is closed once |
| Archive.ZipFileRO.ReadContents | static_frame/core/archive_zip.py:1313-1411 | reaches the outcome of `Directory.ReadContents`: an `OSError` or a missing record is "File is not a zip file", a negative start is "Bad offset", otherwise the walk's entries or error |
| Archive.ZipFileRO.WalkDirectory | static_frame/core/archive_zip.py:1342-1411 | the cursor loop collects exactly the entries of `EntriesFrom`, or stops with its error, and keeps the name index equal to those entries' dictionary |
| Archive.ZipFileRO.AddEntry | static_frame/core/archive_zip.py:1402 | assigns the entry under its name and keeps the index equal to the dictionary of the entries so far |
| Archive.ZipFileRO.Namelist | static_frame/core/archive_zip.py:1540-1543 | each directory name once, no others, in order of first appearance |
| Archive.ZipFileRO.GetInfo | static_frame/core/archive_zip.py:1576-1582 | succeeds exactly for names in the directory, with the last entry of that name; otherwise `KeyError` |
| Archive.ZipFileRO.Release | static_frame/core/archive_zip.py:2097-2101 | a non-positive count fails the assert and changes nothing; otherwise the count drops by one, and the last reference closes a file the archive opened, exactly once |
| Archive.ZipFileRO.Open | static_frame/core/archive_zip.py:1616-1711 | a closed archive raises `ValueError` and an unknown name `KeyError`; otherwise the outcome is the local header check; a failure leaves the count, the handles and the file state as they were; success adds one reference and one handle and gives a reader at position 0 on the entry's bytes |
| Archive.ZipFileRO.OpenEntry | static_frame/core/archive_zip.py:1654-1711 | takes a reference for a new handle, checks the header through it, and on failure closes the handle so that the count is restored |
| Archive.ZipFileRO.TakeHandle | static_frame/core/archive_zip.py:1654-1659 | the count grows by one and a fresh handle at the header offset joins the live handles |
| Archive.ZipFileRO.Close | static_frame/core/archive_zip.py:1981-2001 | the first call gives up the archive's own reference; later calls change nothing |
| Archive.CheckLocalHeader | static_frame/core/archive_zip.py:1660-1696 | the header reads through the handle give the outcome of `LocalHeaderCheck` (or `ValueError` on a closed file), and leave the handle on the first stored byte |
| Archive.ReadEntry | static_frame/core/archive_zip.py:1348-1411 | one pass of the cursor loop gives the entry parsed from the remaining directory bytes, and the cursor moves by its length, up to the end of the buffer |
| Archive.ReadRecord | static_frame/core/archive_zip.py:1353-1399 | the rest of one loop pass after the fixed header reaches `ParseFixed`'s outcome on the remaining bytes, and on success the cursor moves past name, extra field and comment, up to the end of the buffer |
| Archive.ReadCursor | static_frame/core/archive_zip.py:1357-1373 | `read(n)` on the `BytesIO` gives the bytes at the cursor, at most `n`, and the cursor moves past them without passing the end |
| Archive.ZipFilePartRO.constructor | static_frame/core/archive_zip.py:878-912 | a reader at position 0 with an empty buffer, starting at the handle's position; what it will deliver is `EntryContent` of the file |
| Archive.ZipFilePartRO.Tell | static_frame/core/archive_zip.py:1204-1210 | `ValueError` exactly when closed; the position is between 0 and the file size and within the content |
| Archive.ZipFilePartRO.Read2 | static_frame/core/archive_zip.py:1072-1086 | nothing once `_compress_left` is 0; otherwise the next stored bytes, and `_compress_left` drops by their number; an empty read raises `EOFError` only when the file ends inside the entry |
| Archive.ZipFilePartRO.Read1 | static_frame/core/archive_zip.py:1090-1124 | at the end, or for `n <= 0`, nothing; otherwise the next undelivered bytes of the content, with progress on every call |
| Archive.ZipFilePartRO.EofDrained | static_frame/core/archive_zip.py:1106-1122 | once the end flag is set, every byte of the content has been delivered |
| Archive.ZipFilePartRO.Read | static_frame/core/archive_zip.py:989-1023 | a closed reader raises `ValueError`; otherwise the bytes of the content from the position on, at most `n`, fewer only at the end; the position moves past them |
| Archive.ZipFilePartRO.ReadRest | static_frame/core/archive_zip.py:996-1002 | `read(-1)` returns the content from the position to the end |
| Archive.ZipFilePartRO.ReadUpTo | static_frame/core/archive_zip.py:1004-1023 | `read(n)` returns the next at most `n` bytes of the content, fewer only at the end |
| Archive.ZipFilePartRO.ReadChunks | static_frame/core/archive_zip.py:1014-1023 | the loop of `read(n)` returns the next `wanted` bytes of the content, fewer only at the end |
| Archive.ZipFilePartRO.TakeBuffered | static_frame/core/archive_zip.py:1011-1013 | the unread part of the buffer, taken here and at 997-999, is the content from the position on, up to what was delivered; the buffer is emptied and the position does not move |
| Archive.ZipFilePartRO.ReadStep | static_frame/core/archive_zip.py:1014-1023 | one pass of the loop takes the next at most `missing` bytes of the content; a shorter result leaves the buffer empty and has made progress or reached the end |
| Archive.ZipFilePartRO.KeepSurplus | static_frame/core/archive_zip.py:1016-1020 | a chunk longer than wanted becomes the buffer, of which the first `n` bytes are returned and count as read |
| Archive.ZipFilePartRO.Peek | static_frame/core/archive_zip.py:971-982 | returns at most 512 bytes of the content from the position, as many as asked (up to 512) unless the end comes first, and the position does not move |
| Archive.ZipFilePartRO.Refill | static_frame/core/archive_zip.py:973-979 | `read(n)` followed by putting its result back leaves the position where it was, with at least `n` bytes buffered unless the content ends first; a closed reader raises `ValueError` and changes nothing |
| Archive.ZipFilePartRO.Unread | static_frame/core/archive_zip.py:975-979 | the bytes just read go back in front of the unread part of the buffer, or the offset moves back over them: the position moves back by their number and nothing is delivered again from the file |
| Archive.ZipFilePartRO.Lookahead | static_frame/core/archive_zip.py:982 | the bytes `peek` returns are the content at the position, up to 512 of what is buffered |
| Archive.ZipFilePartRO.Seek | static_frame/core/archive_zip.py:1139-1202 | as written: a closed reader or a bad whence raises `ValueError`; a target inside the buffer moves there; any other target raises `AttributeError` (see Findings) |
| Archive.ZipFilePartRO.SeekToStart | static_frame/core/archive_zip.py:1139-1170 | `seek(0)` on a reader with an empty buffer raises `AttributeError` |
| Archive.ZipFilePartRO.SeekIntended | static_frame/core/archive_zip.py:1139-1202 | as intended: the position reached is the clamped target, or the end of the content if that comes first, and it is returned; a target equal to the position changes nothing; success is certain when the stored bytes are all in the file |
| Archive.ZipFilePartRO.Reposition | static_frame/core/archive_zip.py:1182-1202 | past the buffer, the position reached is the target or the end of the content, restarting first when the target lies behind; failures are only a truncated file or a closed file object, and a target equal to the position changes nothing |
| Archive.ZipFilePartRO.Rewind | static_frame/core/archive_zip.py:1182-1193 | the reader restarts at position 0 on the first stored byte with an empty buffer |
| Archive.ZipFilePartRO.Skip | static_frame/core/archive_zip.py:1197-1202 | reading and dropping `count` bytes in runs of `MAX_SEEK_READ` moves the position by `count`, up to the end of the content |
| Archive.ZipFilePartRO.Close | static_frame/core/archive_zip.py:1127-1132 | the reader is closed, and its handle too when it owns it, which gives one reference back |
| Archive.SeekAfterOpen | static_frame/core/archive_zip.py:1616-1711 | a reader fresh from `open()` raises `AttributeError` on `seek(0)` |
| Archive.SeekIntendedAfterOpen | static_frame/core/archive_zip.py:1616-1711 | with `seek` as intended, `seek(0)` on a fresh reader returns 0 |
| HLocKeys.GetItem | static_frame/core/hloc.py:10-13 | the key is always a non-empty tuple, so `len` is at least 1; it is the given tuple exactly when that tuple is non-empty, and otherwise the one-element tuple of the key |
| HLocKeys.GetItemSingle | static_frame/core/hloc.py:10-13 | a non-tuple key, or the empty tuple, selects on the outermost level only |
| HLocKeys.GetItemIdempotent | static_frame/core/hloc.py:10-13 | selecting with the tuple an `HLoc` holds gives the same `HLoc` |
| HLocKeys.GetItemTuple | static_frame/core/hloc.py:10-34 | a non-empty tuple addresses one level per element |

## Left out

- LZMA, deflate, bzip2, `compressor_names`, zlib and CRC-32 checks are not modelled. Only stored entries are read. The CRC code is commented out in the source.
- The write modes and the commented-out code of `archive_zip.py` are not modelled.
- `__repr__`, `__del__`, `__enter__`/`__exit__`, `infolist`, `readable` and `seekable` are not modelled.
- Opening a path with `io.open` (`archive_zip.py:1450-1473`) is not modelled. `ZipFileRO.Create` takes the file object and a flag saying whether the archive opened it.
- A reader over a non-seekable file raises `NotImplementedError` in the source. The model has only seekable files.
- Threading is not modelled. The source has no locks anyway.
- `validate.py`, `url.py` and `key_to_str` are not part of this model.
- UTF-8 and cp437 decoding are the `decode` parameter. Their tables are not modelled.
- `struct` signatures (`4s`) are kept as raw bytes. Every other field is an unsigned little-endian integer of its width.
- Python's `-O` flag would remove the `assert` at `archive_zip.py:1383` and the one at 2098. The model keeps both, as `AssertionError`.
- The position of the file object after a failed `_read_contents` or `open()` is not stated. Only its closed state and close calls are.
- Archive.ZipFilePartRO.SeekIntended: does not model the stored-entry fast path of lines 1170-1180, because that branch can never run as written (see Findings). It reads forward instead, which gives the same position and content. That fast path also never decreases `_compress_left` (line 1176). Had the branch run, the reader would then have read past the entry. Its `self._fileobj.seek(read_offset, os.SEEK_CUR)` (line 1175) would also move relative to the shared file object's physical position, which another open reader may have moved (`Archive.SharedFileRO.Seek`, line 822), not relative to this reader's `_pos`.
- Archive.ZipFileRO.Open: on success it does not state the file object's position. That position belongs to the handle, whose `pos` is the first stored byte.
- `MAX_N` is written `1 << 31 - 1`, which Python parses as `1 << 30`. The model uses that value. It only sizes the chunks of `read(-1)`, so the result is the same either way.
- EndLocator.LocateEndArchive, EndLocator.UpdateZip64 and LocalHeader.LocalHeaderCheck assume the archive is a regular OS file, where a seek to a negative position raises `OSError`. A `BytesIO` passed to `ZipFileRO` behaves otherwise: it clamps a negative relative seek (whence 1 or 2) to 0, and it raises `ValueError` for a negative absolute seek. So for a `BytesIO` the short-file case of `_extract_end_archive`, the unguarded second seek of `_end_archive_update_zip64` and the negative-header-offset `OSError` of `open()` differ from the model.
- `HLoc.__len__` and `HLoc.__iter__` are `HLocKeys.Len` and `HLocKeys.Iter`: the key's length and its elements. They only delegate to the tuple, so they have no contract of their own.
- `HLoc` keys are an opaque `Atom` or a `Tuple`. Slices, lists and the other key types are atoms, because `HLoc` never looks inside them.

## Findings

| source | as written | input that shows it | evidently intended | confidence | as-written member | corrected member |
|---|---|---|---|---|---|---|
| static_frame/core/archive_zip.py:1170 | when the target is not inside the buffer, `seek` tests `self._compress_type`; `__init__` never assigns it (line 886 is commented out), so `AttributeError` is raised before any branch is taken | `seek(0)` on a reader fresh from `open()`, whose buffer is empty (`Archive.SeekAfterOpen`) | reach the clamped target: move within the buffer, restart from the first stored byte for a target behind the position, read forward otherwise; return the new position (`Archive.SeekIntendedAfterOpen` returns 0) | not executed | Archive.ZipFilePartRO.Seek | Archive.ZipFilePartRO.SeekIntended |
