/** The checks `ZipFileRO.open` makes on an entry's local file header before it hands out a
    reader, as a function of the file's bytes: where the stored bytes start, or why the entry
    cannot be opened. */
module LocalHeader {
  import opened ByteCodec
  import opened Wrappers
  import opened ZipRecords
  import opened ByteSource
  import opened Directory

  /** The outcome of `open()` between taking a reference and constructing the reader: the
      offset of the entry's first stored byte, or the error raised. The reads go through a
      shared handle positioned at the entry's header offset; a negative offset makes its
      first seek fail. The extra field is skipped, not read, so it may run past the end. */
  function LocalHeaderCheck(data: seq<byte>, zinfo: ZipInfoRO, decode: NameDecoder): (r: Result<nat>)
    ensures zinfo.headerOffset < 0 ==> r == Failure(OSError)
    ensures zinfo.headerOffset >= 0 && zinfo.headerOffset + FILE_HEADER_SIZE > |data| ==>
              r == Failure(BadZipFile(TruncatedFileHeader))
    ensures r.Success? ==>
              && zinfo.headerOffset >= 0
              && zinfo.headerOffset + FILE_HEADER_SIZE <= |data|
              && ReadAt(data, zinfo.headerOffset, SIGNATURE_SIZE) == FILE_HEADER_STRING
              && zinfo.headerOffset + FILE_HEADER_SIZE <= r.value
              && !FlagSet(zinfo.flagBits, COMPRESSED_PATCH_BIT)
              && !FlagSet(zinfo.flagBits, STRONG_ENCRYPTION_BIT)
              && !FlagSet(zinfo.flagBits, ENCRYPTED_BIT)
  {
    var ho := zinfo.headerOffset;
    if ho < 0 then
      Failure(OSError)
    else
      var raw := ReadAt(data, ho, FILE_HEADER_SIZE);
      if |raw| != FILE_HEADER_SIZE then
        Failure(BadZipFile(TruncatedFileHeader))
      else
        var fheader := DecodeFileHeader(raw);
        if fheader.signature != FILE_HEADER_STRING then
          Failure(BadZipFile(BadFileHeaderMagic))
        else
          assert ReadAt(data, ho, SIGNATURE_SIZE) == raw[..SIGNATURE_SIZE];
          var fname := ReadAt(data, ho + FILE_HEADER_SIZE, fheader.filenameLength);
          var start := ho + FILE_HEADER_SIZE + |fname| + fheader.extraLength;
          if FlagSet(zinfo.flagBits, COMPRESSED_PATCH_BIT) then
            Failure(NotImplemented(CompressedPatch))
          else if FlagSet(zinfo.flagBits, STRONG_ENCRYPTION_BIT) then
            Failure(NotImplemented(StrongEncryption))
          else
            match decode(fname, FlagSet(fheader.flagBits, UTF_FILENAME_BIT))
            case None => Failure(UnicodeDecodeError)
            case Some(name) =>
              if name != zinfo.filename then
                Failure(BadZipFile(NameMismatch))
              else if FlagSet(zinfo.flagBits, ENCRYPTED_BIT) then
                Failure(NotImplemented(Encrypted))
              else
                Success(start)
  }

  /** A local header as a writer lays it out: the header, the name, the extra field. */
  function HeaderBytes(fheader: FileHeader, name: seq<byte>, extra: seq<byte>): (bytes: seq<byte>)
    requires |fheader.signature| == SIGNATURE_SIZE
    ensures |bytes| == FILE_HEADER_SIZE + |name| + |extra|
  {
    EncodeFileHeader(fheader) + name + extra
  }

  /** An entry whose local header was written at its recorded offset, with the same name as
      its directory record and none of the refused flags, opens at the first byte after the
      header, the name and the extra field. */
  lemma LocalHeaderRoundTrip(prefix: seq<byte>, fheader: FileHeader, name: seq<byte>, extra: seq<byte>,
                             rest: seq<byte>, zinfo: ZipInfoRO, decode: NameDecoder)
    requires fheader.signature == FILE_HEADER_STRING && Fits(FILE_HEADER_LAYOUT, fheader.Fields())
    requires fheader.filenameLength == |name| && fheader.extraLength == |extra|
    requires zinfo.headerOffset == |prefix|
    requires decode(name, FlagSet(fheader.flagBits, UTF_FILENAME_BIT)) == Some(zinfo.filename)
    requires !FlagSet(zinfo.flagBits, COMPRESSED_PATCH_BIT) && !FlagSet(zinfo.flagBits, STRONG_ENCRYPTION_BIT)
    requires !FlagSet(zinfo.flagBits, ENCRYPTED_BIT)
    ensures LocalHeaderCheck(prefix + HeaderBytes(fheader, name, extra) + rest, zinfo, decode)
              == Success(|prefix| + FILE_HEADER_SIZE + |name| + |extra|)
  {
    var data := prefix + HeaderBytes(fheader, name, extra) + rest;
    var encoded := EncodeFileHeader(fheader);
    assert data == prefix + encoded + name + (extra + rest);
    ReadBetween(prefix, encoded, name, extra + rest);
    FileHeaderRoundTrip(fheader);
    assert data == (prefix + encoded) + name + extra + rest;
    ReadBetween(prefix + encoded, name, extra, rest);
  }

  /** `open()` never compares the compression method of the local header with anything:
      whatever method it declares (deflate under a directory entry marked stored, say), the
      outcome is the same as with any other, and a stored entry is delivered as raw bytes. */
  lemma LocalMethodIgnored(prefix: seq<byte>, fheader: FileHeader, name: seq<byte>, extra: seq<byte>,
                           rest: seq<byte>, zinfo: ZipInfoRO, decode: NameDecoder, declared: nat)
    requires fheader.signature == FILE_HEADER_STRING && Fits(FILE_HEADER_LAYOUT, fheader.Fields())
    requires Fits(FILE_HEADER_LAYOUT, fheader.(compressionMethod := declared).Fields())
    requires fheader.filenameLength == |name| && fheader.extraLength == |extra|
    requires zinfo.headerOffset == |prefix|
    ensures LocalHeaderCheck(prefix + HeaderBytes(fheader.(compressionMethod := declared), name, extra) + rest, zinfo, decode)
            == LocalHeaderCheck(prefix + HeaderBytes(fheader, name, extra) + rest, zinfo, decode)
  {
    HeaderRead(prefix, fheader, name, extra, rest);
    HeaderRead(prefix, fheader.(compressionMethod := declared), name, extra, rest);
  }

  /** The reads `open()` makes at a written local header see the header and the name. */
  lemma HeaderRead(prefix: seq<byte>, fheader: FileHeader, name: seq<byte>, extra: seq<byte>, rest: seq<byte>)
    requires |fheader.signature| == SIGNATURE_SIZE && Fits(FILE_HEADER_LAYOUT, fheader.Fields())
    ensures var data := prefix + HeaderBytes(fheader, name, extra) + rest;
            && ReadAt(data, |prefix|, FILE_HEADER_SIZE) == EncodeFileHeader(fheader)
            && DecodeFileHeader(EncodeFileHeader(fheader)) == fheader
            && ReadAt(data, |prefix| + FILE_HEADER_SIZE, |name|) == name
  {
    var data := prefix + HeaderBytes(fheader, name, extra) + rest;
    var encoded := EncodeFileHeader(fheader);
    assert data == prefix + encoded + name + (extra + rest);
    ReadBetween(prefix, encoded, name, extra + rest);
    FileHeaderRoundTrip(fheader);
    assert data == (prefix + encoded) + name + extra + rest;
    ReadBetween(prefix + encoded, name, extra, rest);
  }

  /** The name in the local header must decode to the directory's name for the entry. */
  lemma NameMismatchRejected(prefix: seq<byte>, fheader: FileHeader, name: seq<byte>, extra: seq<byte>,
                             rest: seq<byte>, zinfo: ZipInfoRO, decode: NameDecoder, other: string)
    requires fheader.signature == FILE_HEADER_STRING && Fits(FILE_HEADER_LAYOUT, fheader.Fields())
    requires fheader.filenameLength == |name| && fheader.extraLength == |extra|
    requires zinfo.headerOffset == |prefix|
    requires decode(name, FlagSet(fheader.flagBits, UTF_FILENAME_BIT)) == Some(other) && other != zinfo.filename
    requires !FlagSet(zinfo.flagBits, COMPRESSED_PATCH_BIT) && !FlagSet(zinfo.flagBits, STRONG_ENCRYPTION_BIT)
    ensures LocalHeaderCheck(prefix + HeaderBytes(fheader, name, extra) + rest, zinfo, decode)
              == Failure(BadZipFile(NameMismatch))
  {
    var data := prefix + HeaderBytes(fheader, name, extra) + rest;
    var encoded := EncodeFileHeader(fheader);
    assert data == prefix + encoded + name + (extra + rest);
    ReadBetween(prefix, encoded, name, extra + rest);
    FileHeaderRoundTrip(fheader);
    assert data == (prefix + encoded) + name + extra + rest;
    ReadBetween(prefix + encoded, name, extra, rest);
  }

  /** What a reader over a stored entry delivers from start to end: the `compressSize`
      bytes from `start` as far as the file holds them, cut at the entry's file size. */
  function EntryContent(data: seq<byte>, start: nat, compressSize: nat, fileSize: nat): (content: seq<byte>)
    ensures |content| <= fileSize && |content| <= compressSize
    ensures start + compressSize <= |data| && fileSize <= compressSize ==> |content| == fileSize
  {
    var stream := ReadAt(data, start, compressSize);
    stream[..if fileSize <= |stream| then fileSize else |stream|]
  }

  /** An entry stored behind its local header opens on its stored bytes, and a reader over
      it delivers exactly those bytes. */
  lemma StoredEntryRoundTrip(prefix: seq<byte>, fheader: FileHeader, name: seq<byte>, extra: seq<byte>,
                             payload: seq<byte>, rest: seq<byte>, zinfo: ZipInfoRO, decode: NameDecoder)
    requires fheader.signature == FILE_HEADER_STRING && Fits(FILE_HEADER_LAYOUT, fheader.Fields())
    requires fheader.filenameLength == |name| && fheader.extraLength == |extra|
    requires zinfo.headerOffset == |prefix|
    requires decode(name, FlagSet(fheader.flagBits, UTF_FILENAME_BIT)) == Some(zinfo.filename)
    requires !FlagSet(zinfo.flagBits, COMPRESSED_PATCH_BIT) && !FlagSet(zinfo.flagBits, STRONG_ENCRYPTION_BIT)
    requires !FlagSet(zinfo.flagBits, ENCRYPTED_BIT)
    requires zinfo.compressSize == |payload| && zinfo.fileSize == |payload|
    ensures var data := prefix + HeaderBytes(fheader, name, extra) + payload + rest;
            var start := |prefix| + FILE_HEADER_SIZE + |name| + |extra|;
            && LocalHeaderCheck(data, zinfo, decode) == Success(start)
            && EntryContent(data, start, zinfo.compressSize, zinfo.fileSize) == payload
  {
    var header := prefix + HeaderBytes(fheader, name, extra);
    var data := header + payload + rest;
    assert data == prefix + HeaderBytes(fheader, name, extra) + (payload + rest);
    LocalHeaderRoundTrip(prefix, fheader, name, extra, payload + rest, zinfo, decode);
    ReadBetween(header, payload, [], rest);
  }
}
