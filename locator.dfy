/** Locating the end-of-central-directory record of an archive (`_extract_end_archive`) and
    upgrading it from the ZIP64 records (`_end_archive_update_zip64`). The byte source is the
    whole file `data`; every seek the source makes is a position computed from `|data|`. */
module EndLocator {
  import opened ByteCodec
  import opened Wrappers
  import opened ZipRecords
  import opened ByteSource

  /** The format caps an archive comment at 64 KiB - 1 bytes; the search looks this far back
      before the last 22 bytes (`1 << 16`). */
  const MAX_COMMENT_WINDOW: nat := 65536

  predicate OccursAt(s: seq<byte>, pat: seq<byte>, i: int)
  {
    0 <= i && i + |pat| <= |s| && s[i .. i + |pat|] == pat
  }

  /** `i` is the last place `pat` occurs in `s`. */
  predicate LastOccurrence(s: seq<byte>, pat: seq<byte>, i: int)
  {
    OccursAt(s, pat, i) && forall j :: i < j <= |s| - |pat| ==> !OccursAt(s, pat, j)
  }

  /** The highest index `<= hi` at which `pat` occurs in `s`, or -1. */
  function RFindBelow(s: seq<byte>, pat: seq<byte>, hi: int): (r: int)
    ensures r == -1 || (0 <= r <= hi && OccursAt(s, pat, r))
    ensures forall j :: r < j <= hi ==> !OccursAt(s, pat, j)
    decreases hi + 1
  {
    if hi < 0 then -1
    else if OccursAt(s, pat, hi) then hi
    else RFindBelow(s, pat, hi - 1)
  }

  /** `bytes.rfind(pat)` for a non-empty `pat`: the last occurrence of `pat` in `s`, or -1. */
  function RFind(s: seq<byte>, pat: seq<byte>): (r: int)
    requires |pat| > 0
    ensures r == -1 || LastOccurrence(s, pat, r)
    ensures r == -1 <==> forall j :: !OccursAt(s, pat, j)
  {
    RFindBelow(s, pat, |s| - |pat|)
  }

  lemma OccursInSuffix(s: seq<byte>, pat: seq<byte>, from: nat, i: int)
    requires from <= |s|
    ensures OccursAt(s[from..], pat, i) <==> OccursAt(s, pat, from + i) && i >= 0
  {
    if 0 <= i && i + |pat| <= |s| - from {
      assert s[from..][i .. i + |pat|] == s[from + i .. from + i + |pat|];
    }
  }

  /** The first byte the backward search looks at (`comment_max_start`). */
  function WindowStart(filesize: nat): (start: nat)
    ensures start <= filesize && filesize - start <= MAX_COMMENT_WINDOW + END_ARCHIVE_SIZE
    ensures filesize >= MAX_COMMENT_WINDOW + END_ARCHIVE_SIZE ==> filesize - start == MAX_COMMENT_WINDOW + END_ARCHIVE_SIZE
  {
    if filesize >= MAX_COMMENT_WINDOW + END_ARCHIVE_SIZE then filesize - MAX_COMMENT_WINDOW - END_ARCHIVE_SIZE
    else 0
  }

  /** The record whose signature is at `loc`, with the comment the source slices after it:
      at most `commentSize` bytes, fewer when the file ends first. */
  function RecordAt(data: seq<byte>, loc: nat): (r: EndRecord)
    requires loc + END_ARCHIVE_SIZE <= |data|
    ensures r.location == loc && |r.signature| == SIGNATURE_SIZE
    ensures r == DecodeEndArchive(data[loc .. loc + END_ARCHIVE_SIZE], r.comment, loc)
    ensures EncodeEndArchive(r) == data[loc .. loc + END_ARCHIVE_SIZE]
    ensures |r.comment| <= r.commentSize && loc + END_ARCHIVE_SIZE + |r.comment| <= |data|
    ensures r.comment == data[loc + END_ARCHIVE_SIZE .. loc + END_ARCHIVE_SIZE + |r.comment|]
    ensures |r.comment| < r.commentSize ==> loc + END_ARCHIVE_SIZE + |r.comment| == |data|
  {
    var rec := DecodeEndArchive(data[loc .. loc + END_ARCHIVE_SIZE], [], loc);
    var start := loc + END_ARCHIVE_SIZE;
    var stop := if start + rec.commentSize <= |data| then start + rec.commentSize else |data|;
    EndArchiveBytesRoundTrip(data[loc .. loc + END_ARCHIVE_SIZE], data[start..stop], loc);
    rec.(comment := data[start..stop])
  }

  /** The fast path: the last 22 bytes are a record with signature `PK\005\006` and a zero
      comment length. */
  function FastPath(data: seq<byte>): (r: Option<EndRecord>)
    requires |data| >= END_ARCHIVE_SIZE
    ensures r.Some? <==>
              OccursAt(data, END_ARCHIVE_STRING, |data| - END_ARCHIVE_SIZE) && data[|data| - 2..] == [0, 0]
    ensures r.Some? ==> r.value.location == |data| - END_ARCHIVE_SIZE && r.value.comment == []
    ensures r.Some? ==> r.value == DecodeEndArchive(data[|data| - END_ARCHIVE_SIZE..], [], |data| - END_ARCHIVE_SIZE)
  {
    var tail := data[|data| - END_ARCHIVE_SIZE..];
    if |tail| == END_ARCHIVE_SIZE && tail[0..4] == END_ARCHIVE_STRING && tail[END_ARCHIVE_SIZE - 2..] == [0, 0] then
      EndArchiveBytesRoundTrip(tail, [], |data| - END_ARCHIVE_SIZE);
      Some(DecodeEndArchive(tail, [], |data| - END_ARCHIVE_SIZE))
    else
      None
  }

  /** Two last occurrences are the same position. */
  lemma LastOccurrenceUnique(s: seq<byte>, pat: seq<byte>, i: int, j: int)
    requires LastOccurrence(s, pat, i) && LastOccurrence(s, pat, j)
    ensures i == j
  {
  }

  /** What `rfind` on the bytes from `from` on says about the whole file. */
  lemma RFindSuffix(data: seq<byte>, pat: seq<byte>, from: nat)
    requires |pat| > 0 && from <= |data|
    ensures var start := RFind(data[from..], pat);
            && (start == -1 ==> forall loc :: from <= loc ==> !OccursAt(data, pat, loc))
            && (start != -1 ==> LastOccurrence(data, pat, from + start))
  {
    var start := RFind(data[from..], pat);
    if start == -1 {
      forall loc | from <= loc ensures !OccursAt(data, pat, loc) {
        OccursInSuffix(data, pat, from, loc - from);
      }
    } else {
      OccursInSuffix(data, pat, from, start);
      forall j | from + start < j <= |data| - |pat| ensures !OccursAt(data, pat, j) {
        OccursInSuffix(data, pat, from, j - from);
      }
    }
  }

  /** The fallback: the last signature in the final 64 KiB + 22 bytes, if 22 bytes follow it. */
  function SearchBackward(data: seq<byte>): (r: Option<EndRecord>)
    ensures r.Some? ==>
              var loc := r.value.location;
              && WindowStart(|data|) <= loc && loc + END_ARCHIVE_SIZE <= |data|
              && LastOccurrence(data, END_ARCHIVE_STRING, loc)
              && r.value == RecordAt(data, loc)
    ensures forall loc :: WindowStart(|data|) <= loc && LastOccurrence(data, END_ARCHIVE_STRING, loc) ==>
              (r.Some? <==> loc + END_ARCHIVE_SIZE <= |data|)
    ensures (forall loc :: WindowStart(|data|) <= loc ==> !OccursAt(data, END_ARCHIVE_STRING, loc)) ==> r.None?
  {
    var from := WindowStart(|data|);
    var window := data[from..];
    var start := RFind(window, END_ARCHIVE_STRING);
    RFindSuffix(data, END_ARCHIVE_STRING, from);
    if start < 0 then
      None
    else
      var loc := from + start;
      assert forall other :: LastOccurrence(data, END_ARCHIVE_STRING, other) ==> other == loc by {
        forall other | LastOccurrence(data, END_ARCHIVE_STRING, other) ensures other == loc {
          LastOccurrenceUnique(data, END_ARCHIVE_STRING, other, loc);
        }
      }
      var recData := window[start .. if start + END_ARCHIVE_SIZE <= |window| then start + END_ARCHIVE_SIZE else |window|];
      if |recData| != END_ARCHIVE_SIZE then
        None
      else
        Some(RecordAt(data, loc))
  }

  /** `_extract_end_archive` before its ZIP64 step. A file shorter than the record makes the
      first seek fail with OSError, which the source turns into "not found". */
  function LocateEndArchive(data: seq<byte>): (r: Option<EndRecord>)
    ensures |data| < END_ARCHIVE_SIZE ==> r.None?
    ensures r.Some? ==>
              var loc := r.value.location;
              && WindowStart(|data|) <= loc && loc + END_ARCHIVE_SIZE <= |data|
              && OccursAt(data, END_ARCHIVE_STRING, loc)
    ensures (forall loc :: WindowStart(|data|) <= loc ==> !OccursAt(data, END_ARCHIVE_STRING, loc)) ==> r.None?
  {
    if |data| < END_ARCHIVE_SIZE then None
    else match FastPath(data)
      case Some(rec) => Some(rec)
      case None => SearchBackward(data)
  }

  /** A located record carries the signature it was found by. */
  lemma LocatedSignature(data: seq<byte>)
    requires LocateEndArchive(data).Some?
    ensures LocateEndArchive(data).value.signature == END_ARCHIVE_STRING
  {
    var loc := LocateEndArchive(data).value.location;
    if FastPath(data).None? {
      assert LocateEndArchive(data).value == RecordAt(data, loc);
    }
    assert data[loc .. loc + END_ARCHIVE_SIZE][..SIGNATURE_SIZE] == data[loc .. loc + SIGNATURE_SIZE];
  }

  /** A ZIP64 locator whose signature matches sits just before the record at `loc`. */
  predicate HasLocator64(data: seq<byte>, loc: nat)
  {
    loc >= END_ARCHIVE64_LOCATOR_SIZE && OccursAt(data, END_ARCHIVE64_LOCATOR_STRING, loc - END_ARCHIVE64_LOCATOR_SIZE)
  }

  /** `_end_archive_update_zip64(fpin, offset, endrec)`; `offset` is relative to the end of
      the file (the record's location minus the file size). */
  function UpdateZip64(data: seq<byte>, offset: int, endrec: EndRecord): (r: Result<EndRecord>)
    ensures r.Success? ==>
              && r.value.commentSize == endrec.commentSize
              && r.value.comment == endrec.comment
              && r.value.location == endrec.location
    ensures r.Success? && r.value != endrec ==> r.value.signature == END_ARCHIVE64_STRING
    ensures r.Failure? ==> r.error == BadZipFile(MultiDisk) || r.error == OSError
    ensures !(|data| + offset >= 0 && HasLocator64(data, |data| + offset)) ==> r == Success(endrec)
  {
    var locPos := |data| + offset - END_ARCHIVE64_LOCATOR_SIZE;
    if locPos < 0 then
      Success(endrec)             // the seek fails: no room for a locator
    else
      var locData := ReadAt(data, locPos, END_ARCHIVE64_LOCATOR_SIZE);
      if |locData| != END_ARCHIVE64_LOCATOR_SIZE then
        Success(endrec)
      else
        var locator := DecodeLocator64(locData);
        if locator.signature != END_ARCHIVE64_LOCATOR_STRING then
          Success(endrec)
        else if locator.diskNumber != 0 || locator.totalDisks > 1 then
          Failure(BadZipFile(MultiDisk))
        else
          var recPos := |data| + offset - END_ARCHIVE64_LOCATOR_SIZE - END_ARCHIVE64_SIZE;
          if recPos < 0 then
            Failure(OSError)      // this seek is not guarded in the source
          else
            var recData := ReadAt(data, recPos, END_ARCHIVE64_SIZE);
            if |recData| != END_ARCHIVE64_SIZE then
              Success(endrec)
            else
              var rec := DecodeEnd64(recData);
              if rec.signature != END_ARCHIVE64_STRING then
                Success(endrec)
              else
                Success(endrec.(
                  signature := rec.signature,
                  diskNumber := rec.diskNumber,
                  diskStart := rec.diskStart,
                  entriesThisDisk := rec.entriesThisDisk,
                  entriesTotal := rec.entriesTotal,
                  size := rec.directorySize,
                  offset := rec.directoryOffset))
  }

  /** `_extract_end_archive`: `Success(None)` when no record is found, a failure when the
      ZIP64 step raises. */
  function ExtractEndArchive(data: seq<byte>): (r: Result<Option<EndRecord>>)
    ensures LocateEndArchive(data).None? <==> r == Success(None)
    ensures r.Failure? ==> LocateEndArchive(data).Some? && (r.error == BadZipFile(MultiDisk) || r.error == OSError)
    ensures r.Success? && r.value.Some? ==>
              var found := LocateEndArchive(data).value;
              && r.value.value.location == found.location
              && r.value.value.comment == found.comment
              && r.value.value.commentSize == found.commentSize
    ensures LocateEndArchive(data).Some? && !HasLocator64(data, LocateEndArchive(data).value.location) ==>
              r == Success(LocateEndArchive(data))
  {
    match LocateEndArchive(data)
    case None => Success(None)
    case Some(rec) =>
      var updated :- UpdateZip64(data, rec.location - |data|, rec);
      Success(Some(updated))
  }

  /** The updated record of `UpdateZip64` when both ZIP64 records are present and valid. */
  function Zip64Updated(endrec: EndRecord, rec: End64Record): EndRecord
  {
    endrec.(signature := rec.signature, diskNumber := rec.diskNumber, diskStart := rec.diskStart,
            entriesThisDisk := rec.entriesThisDisk, entriesTotal := rec.entriesTotal,
            size := rec.directorySize, offset := rec.directoryOffset)
  }

  /** The record read back at the place it was written, with the bytes after it as comment. */
  lemma RecordAtEncoded(prefix: seq<byte>, rec: EndRecord, comment: seq<byte>)
    requires |rec.signature| == SIGNATURE_SIZE && Fits(END_ARCHIVE_LAYOUT, rec.Fields())
    requires |comment| <= rec.commentSize
    ensures |prefix| + END_ARCHIVE_SIZE <= |prefix + EncodeEndArchive(rec) + comment|
    ensures RecordAt(prefix + EncodeEndArchive(rec) + comment, |prefix|) == rec.(comment := comment, location := |prefix|)
  {
    var enc := EncodeEndArchive(rec);
    var data := prefix + enc + comment;
    var loc := |prefix|;
    var expected := rec.(comment := comment, location := loc);
    assert data[loc .. loc + END_ARCHIVE_SIZE] == enc;
    assert data[loc + END_ARCHIVE_SIZE ..] == comment;
    EndArchiveRoundTrip(expected);
    var r := RecordAt(data, loc);
    assert r.commentSize == rec.commentSize;
    assert r.comment == comment;
  }

  /** The backward search returns the record at the last signature in the window. */
  lemma SearchFinds(data: seq<byte>, loc: nat)
    requires loc + END_ARCHIVE_SIZE <= |data| && WindowStart(|data|) <= loc
    requires LastOccurrence(data, END_ARCHIVE_STRING, loc)
    ensures SearchBackward(data) == Some(RecordAt(data, loc))
  {
    var found := SearchBackward(data);
    assert found.Some?;
    LastOccurrenceUnique(data, END_ARCHIVE_STRING, loc, found.value.location);
  }

  /** An archive written as `prefix`, the record, then the comment the record announces (or
      a shorter tail of it) is found at `|prefix|`, with its comment, provided no signature
      occurs after `|prefix|`. */
  lemma CommentRecovered(prefix: seq<byte>, rec: EndRecord, comment: seq<byte>)
    requires rec.signature == END_ARCHIVE_STRING && Fits(END_ARCHIVE_LAYOUT, rec.Fields())
    requires |comment| <= rec.commentSize
    requires var data := prefix + EncodeEndArchive(rec) + comment;
             forall j :: |prefix| < j ==> !OccursAt(data, END_ARCHIVE_STRING, j)
    ensures LocateEndArchive(prefix + EncodeEndArchive(rec) + comment)
            == Some(rec.(comment := comment, location := |prefix|))
  {
    var enc := EncodeEndArchive(rec);
    var data := prefix + enc + comment;
    var loc := |prefix|;
    RecordAtEncoded(prefix, rec, comment);
    assert OccursAt(data, END_ARCHIVE_STRING, loc) by {
      assert data[loc .. loc + SIGNATURE_SIZE] == enc[..SIGNATURE_SIZE];
    }
    assert WindowStart(|data|) <= loc by {
      CommentSizeBound(rec);
    }
    SearchFinds(data, loc);
    if FastPath(data).Some? {
      FastPathAgreesWithSearch(data);
    }
  }

  /** Whenever the fast path fires and no signature sits inside the last 22 bytes after
      their start, the backward search returns the same record: the fast path is only a
      shortcut. */
  lemma FastPathAgreesWithSearch(data: seq<byte>)
    requires |data| >= END_ARCHIVE_SIZE && FastPath(data).Some?
    requires forall j :: |data| - END_ARCHIVE_SIZE < j ==> !OccursAt(data, END_ARCHIVE_STRING, j)
    ensures SearchBackward(data) == FastPath(data)
  {
    var loc := |data| - END_ARCHIVE_SIZE;
    SearchFinds(data, loc);
    TailSlice(data, loc);
    assert RecordAt(data, loc).comment == [];
  }

  lemma TailSlice(data: seq<byte>, loc: nat)
    requires loc <= |data|
    ensures data[loc .. |data|] == data[loc..]
  {
  }

  /** The ZIP64 records written just before the end record at `loc` (record, then locator)
      are read back: the end record takes the ZIP64 counts, size and offset when the locator
      names disk 0 of one disk, and `MultiDisk` is raised otherwise. */
  lemma Zip64RecordsRead(prefix: seq<byte>, rec: End64Record, locator: Locator64, rest: seq<byte>, endrec: EndRecord)
    requires rec.signature == END_ARCHIVE64_STRING && Fits(END_ARCHIVE64_LAYOUT, rec.Fields())
    requires locator.signature == END_ARCHIVE64_LOCATOR_STRING && Fits(END_ARCHIVE64_LOCATOR_LAYOUT, locator.Fields())
    ensures var data := prefix + EncodeEnd64(rec) + EncodeLocator64(locator) + rest;
            var loc := |prefix| + END_ARCHIVE64_SIZE + END_ARCHIVE64_LOCATOR_SIZE;
            UpdateZip64(data, loc - |data|, endrec)
            == if locator.diskNumber != 0 || locator.totalDisks > 1 then Failure(BadZipFile(MultiDisk))
               else Success(Zip64Updated(endrec, rec))
  {

    var e64 := EncodeEnd64(rec);
    var el := EncodeLocator64(locator);
    var data := prefix + e64 + el + rest;
    var locPos := |prefix| + END_ARCHIVE64_SIZE;
    assert ReadAt(data, locPos, END_ARCHIVE64_LOCATOR_SIZE) == el;
    Locator64RoundTrip(locator);
    assert ReadAt(data, |prefix|, END_ARCHIVE64_SIZE) == e64;
    End64RoundTrip(rec);
  }

  /** Every outcome of the ZIP64 step once a locator signature sits before the record at
      `loc`: `MultiDisk` when the locator names another disk or several disks; `OSError`
      when there is no room for the 56-byte record; the record unchanged when those bytes
      lack `PK\x06\x06`; otherwise the record updated from them. The caller passes the
      record's location minus the file size, which is never positive. */
  lemma Zip64StepOutcomes(data: seq<byte>, offset: int, endrec: EndRecord)
    requires offset <= 0 && |data| + offset >= 0 && HasLocator64(data, |data| + offset)
    ensures var loc := |data| + offset;
            var locator := DecodeLocator64(data[loc - END_ARCHIVE64_LOCATOR_SIZE .. loc]);
            var oneDisk := locator.diskNumber == 0 && locator.totalDisks <= 1;
            var recPos := loc - END_ARCHIVE64_LOCATOR_SIZE - END_ARCHIVE64_SIZE;
            var r := UpdateZip64(data, offset, endrec);
            && (!oneDisk ==> r == Failure(BadZipFile(MultiDisk)))
            && (oneDisk && recPos < 0 ==> r == Failure(OSError))
            && (oneDisk && recPos >= 0 && !OccursAt(data, END_ARCHIVE64_STRING, recPos) ==> r == Success(endrec))
            && (oneDisk && recPos >= 0 && OccursAt(data, END_ARCHIVE64_STRING, recPos) ==>
                  r == Success(Zip64Updated(endrec, DecodeEnd64(data[recPos .. loc - END_ARCHIVE64_LOCATOR_SIZE]))))
  {
    var loc := |data| + offset;
    var locPos := loc - END_ARCHIVE64_LOCATOR_SIZE;
    assert ReadAt(data, locPos, END_ARCHIVE64_LOCATOR_SIZE) == data[locPos .. loc];
    var recPos := locPos - END_ARCHIVE64_SIZE;
    if recPos >= 0 {
      var recData := ReadAt(data, recPos, END_ARCHIVE64_SIZE);
      assert recData == data[recPos .. locPos];
      assert recData[..SIGNATURE_SIZE] == data[recPos .. recPos + SIGNATURE_SIZE];
      assert OccursAt(data, END_ARCHIVE64_STRING, recPos) <==> recData[..SIGNATURE_SIZE] == END_ARCHIVE64_STRING;
    }
  }

  /** An archive without ZIP64 records and without a later signature extracts to the record
      it was written with. */
  lemma ExtractPlainArchive(prefix: seq<byte>, rec: EndRecord, comment: seq<byte>)
    requires rec.signature == END_ARCHIVE_STRING && Fits(END_ARCHIVE_LAYOUT, rec.Fields())
    requires |comment| <= rec.commentSize
    requires var data := prefix + EncodeEndArchive(rec) + comment;
             forall j :: |prefix| < j ==> !OccursAt(data, END_ARCHIVE_STRING, j)
    requires !HasLocator64(prefix + EncodeEndArchive(rec) + comment, |prefix|)
    ensures ExtractEndArchive(prefix + EncodeEndArchive(rec) + comment)
            == Success(Some(rec.(comment := comment, location := |prefix|)))
  {
    CommentRecovered(prefix, rec, comment);
  }

  /** An archive with ZIP64 records (record, then locator) written before its end record,
      on one disk and without a later signature, extracts to the end record with the ZIP64
      counts, directory size and directory offset in place of its own. */
  lemma ExtractZip64Archive(pre: seq<byte>, rec64: End64Record, locator: Locator64, rec: EndRecord, comment: seq<byte>)
    requires rec64.signature == END_ARCHIVE64_STRING && Fits(END_ARCHIVE64_LAYOUT, rec64.Fields())
    requires locator.signature == END_ARCHIVE64_LOCATOR_STRING && Fits(END_ARCHIVE64_LOCATOR_LAYOUT, locator.Fields())
    requires locator.diskNumber == 0 && locator.totalDisks <= 1
    requires rec.signature == END_ARCHIVE_STRING && Fits(END_ARCHIVE_LAYOUT, rec.Fields())
    requires |comment| <= rec.commentSize
    requires var prefix := pre + EncodeEnd64(rec64) + EncodeLocator64(locator);
             var data := prefix + EncodeEndArchive(rec) + comment;
             forall j :: |prefix| < j ==> !OccursAt(data, END_ARCHIVE_STRING, j)
    ensures var prefix := pre + EncodeEnd64(rec64) + EncodeLocator64(locator);
            ExtractEndArchive(prefix + EncodeEndArchive(rec) + comment)
            == Success(Some(Zip64Updated(rec.(comment := comment, location := |prefix|), rec64)))
  {
    var prefix := pre + EncodeEnd64(rec64) + EncodeLocator64(locator);
    var tail := EncodeEndArchive(rec) + comment;
    var endrec := rec.(comment := comment, location := |prefix|);
    CommentRecovered(prefix, rec, comment);
    AppendAssoc(prefix, EncodeEndArchive(rec), comment);
    Zip64RecordsRead(pre, rec64, locator, tail, endrec);
    Zip64Extracted(prefix + tail, endrec, Zip64Updated(endrec, rec64));
  }

  /** A located record that the ZIP64 step updates is what `_extract_end_archive` returns. */
  lemma Zip64Extracted(data: seq<byte>, endrec: EndRecord, updated: EndRecord)
    requires LocateEndArchive(data) == Some(endrec)
    requires UpdateZip64(data, endrec.location - |data|, endrec) == Success(updated)
    ensures ExtractEndArchive(data) == Success(Some(updated))
  {
  }

  /** A failure of the ZIP64 step on the located record is what `_extract_end_archive` raises. */
  lemma Zip64Failed(data: seq<byte>, endrec: EndRecord, e: Error)
    requires LocateEndArchive(data) == Some(endrec)
    requires UpdateZip64(data, endrec.location - |data|, endrec) == Failure(e)
    ensures ExtractEndArchive(data) == Failure(e)
  {
  }

  lemma AppendAssoc(a: seq<byte>, b: seq<byte>, c: seq<byte>)
    ensures a + b + c == a + (b + c)
  {
  }

}
