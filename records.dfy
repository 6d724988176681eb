/** The fixed-size records of the ZIP format (PKWARE APPNOTE.TXT sections 4.3.7, 4.3.12,
    4.3.14, 4.3.15 and 4.3.16) as the reader unpacks them, and the general purpose flag bits
    it tests (section 4.4.4). Every record starts with a 4-byte signature (the `4s` of its
    struct format), kept as raw bytes; the remaining fields are unsigned little-endian. */
module ZipRecords {
  import opened ByteCodec

  // Widths of the fields after the signature, letter by letter of the struct formats
  // (B = 1 byte, H = 2, L = 4, Q = 8).
  const END_ARCHIVE_LAYOUT: seq<nat> := Repeat(2, 4) + Repeat(4, 2) + Repeat(2, 1)     // <4s4H2LH
  const CENTRAL_DIR_LAYOUT: seq<nat> :=                                                 // <4s4B4HL2L5H2L
    Repeat(1, 4) + Repeat(2, 4) + Repeat(4, 1) + Repeat(4, 2) + Repeat(2, 5) + Repeat(4, 2)
  const FILE_HEADER_LAYOUT: seq<nat> :=                                                 // <4s2B4HL2L2H
    Repeat(1, 2) + Repeat(2, 4) + Repeat(4, 1) + Repeat(4, 2) + Repeat(2, 2)
  const END_ARCHIVE64_LOCATOR_LAYOUT: seq<nat> := Repeat(4, 1) + Repeat(8, 1) + Repeat(4, 1)  // <4sLQL
  const END_ARCHIVE64_LAYOUT: seq<nat> :=                                               // <4sQ2H2L4Q
    Repeat(8, 1) + Repeat(2, 2) + Repeat(4, 2) + Repeat(8, 4)

  const SIGNATURE_SIZE: nat := 4

  // struct.calcsize of each format; the lemmas below tie them to the layouts
  const END_ARCHIVE_SIZE: nat := 22
  const CENTRAL_DIR_SIZE: nat := 46
  const FILE_HEADER_SIZE: nat := 30
  const END_ARCHIVE64_LOCATOR_SIZE: nat := 20
  const END_ARCHIVE64_SIZE: nat := 56

  const END_ARCHIVE_STRING: seq<byte> := [0x50, 0x4b, 0x05, 0x06]            // PK\005\006
  const CENTRAL_DIR_STRING: seq<byte> := [0x50, 0x4b, 0x01, 0x02]            // PK\001\002
  const FILE_HEADER_STRING: seq<byte> := [0x50, 0x4b, 0x03, 0x04]            // PK\003\004
  const END_ARCHIVE64_LOCATOR_STRING: seq<byte> := [0x50, 0x4b, 0x06, 0x07]  // PK\x06\x07
  const END_ARCHIVE64_STRING: seq<byte> := [0x50, 0x4b, 0x06, 0x06]          // PK\x06\x06

  const ZIP_STORED: nat := 0

  // General purpose flag bits, as bit numbers (the source's masks are 1 << bit).
  const ENCRYPTED_BIT: nat := 0
  const COMPRESSED_PATCH_BIT: nat := 5
  const STRONG_ENCRYPTION_BIT: nat := 6
  const UTF_FILENAME_BIT: nat := 11

  /** `flags & (1 << bit) != 0` */
  predicate FlagSet(flags: nat, bit: nat)
  {
    (flags / Pow2(bit)) % 2 == 1
  }

  // struct.calcsize of each format.
  lemma EndArchiveSize()
    ensures SIGNATURE_SIZE + Sum(END_ARCHIVE_LAYOUT) == END_ARCHIVE_SIZE
  {
    SumRepeat(2, 4);
    SumRepeat(4, 2);
    SumRepeat(2, 1);
    SumAppend(Repeat(2, 4), Repeat(4, 2));
    SumAppend(Repeat(2, 4) + Repeat(4, 2), Repeat(2, 1));
  }

  lemma CentralDirSize()
    ensures SIGNATURE_SIZE + Sum(CENTRAL_DIR_LAYOUT) == CENTRAL_DIR_SIZE
  {
    SumRepeat(1, 4);
    SumRepeat(2, 4);
    SumRepeat(4, 1);
    SumRepeat(4, 2);
    SumRepeat(2, 5);
    SumRepeat(4, 2);
    SumAppend(Repeat(1, 4), Repeat(2, 4));
    SumAppend(Repeat(1, 4) + Repeat(2, 4), Repeat(4, 1));
    SumAppend(Repeat(1, 4) + Repeat(2, 4) + Repeat(4, 1), Repeat(4, 2));
    SumAppend(Repeat(1, 4) + Repeat(2, 4) + Repeat(4, 1) + Repeat(4, 2), Repeat(2, 5));
    SumAppend(Repeat(1, 4) + Repeat(2, 4) + Repeat(4, 1) + Repeat(4, 2) + Repeat(2, 5), Repeat(4, 2));
  }

  lemma FileHeaderSize()
    ensures SIGNATURE_SIZE + Sum(FILE_HEADER_LAYOUT) == FILE_HEADER_SIZE
  {
    SumRepeat(1, 2);
    SumRepeat(2, 4);
    SumRepeat(4, 1);
    SumRepeat(4, 2);
    SumRepeat(2, 2);
    SumAppend(Repeat(1, 2), Repeat(2, 4));
    SumAppend(Repeat(1, 2) + Repeat(2, 4), Repeat(4, 1));
    SumAppend(Repeat(1, 2) + Repeat(2, 4) + Repeat(4, 1), Repeat(4, 2));
    SumAppend(Repeat(1, 2) + Repeat(2, 4) + Repeat(4, 1) + Repeat(4, 2), Repeat(2, 2));
  }

  lemma Locator64Size()
    ensures SIGNATURE_SIZE + Sum(END_ARCHIVE64_LOCATOR_LAYOUT) == END_ARCHIVE64_LOCATOR_SIZE
  {
    SumRepeat(4, 1);
    SumRepeat(8, 1);
    SumRepeat(4, 1);
    SumAppend(Repeat(4, 1), Repeat(8, 1));
    SumAppend(Repeat(4, 1) + Repeat(8, 1), Repeat(4, 1));
  }

  lemma End64Size()
    ensures SIGNATURE_SIZE + Sum(END_ARCHIVE64_LAYOUT) == END_ARCHIVE64_SIZE
  {
    SumRepeat(8, 1);
    SumRepeat(2, 2);
    SumRepeat(4, 2);
    SumRepeat(8, 4);
    SumAppend(Repeat(8, 1), Repeat(2, 2));
    SumAppend(Repeat(8, 1) + Repeat(2, 2), Repeat(4, 2));
    SumAppend(Repeat(8, 1) + Repeat(2, 2) + Repeat(4, 2), Repeat(8, 4));
  }


  /** The end-of-central-directory record (4.3.16) as the list `endrec` of the source: the
      eight struct fields, then the comment bytes and the offset at which it was found. */
  datatype EndRecord = EndRecord(
    signature: seq<byte>,
    diskNumber: nat,
    diskStart: nat,
    entriesThisDisk: nat,
    entriesTotal: nat,
    size: nat,
    offset: nat,
    commentSize: nat,
    comment: seq<byte>,
    location: nat)
  {
    function Fields(): seq<nat>
    {
      [diskNumber, diskStart, entriesThisDisk, entriesTotal, size, offset, commentSize]
    }
  }

  function DecodeEndArchive(data: seq<byte>, comment: seq<byte>, location: nat): (r: EndRecord)
    requires |data| == END_ARCHIVE_SIZE
    ensures r.signature == data[..SIGNATURE_SIZE] && r.comment == comment && r.location == location
    ensures Fits(END_ARCHIVE_LAYOUT, r.Fields())
  {
    EndArchiveSize();
    var f := Unpack(END_ARCHIVE_LAYOUT, data[SIGNATURE_SIZE..]);
    var r := EndRecord(data[..SIGNATURE_SIZE], f[0], f[1], f[2], f[3], f[4], f[5], f[6], comment, location);
    assert |f| == |END_ARCHIVE_LAYOUT| == 7;
    SevenFields(f);
    r
  }

  /** The 22 bytes that `DecodeEndArchive` reads back as `r`. */
  function EncodeEndArchive(r: EndRecord): (data: seq<byte>)
    requires |r.signature| == SIGNATURE_SIZE
    ensures |data| == END_ARCHIVE_SIZE
  {
    EndArchiveSize();
    r.signature + Pack(END_ARCHIVE_LAYOUT, r.Fields())
  }

  /** The comment length is a 2-byte field, so a comment has at most 65535 bytes. */
  lemma CommentSizeBound(r: EndRecord)
    requires Fits(END_ARCHIVE_LAYOUT, r.Fields())
    ensures r.commentSize < 65536
  {
    assert Repeat(2, 1) == [2];
    assert END_ARCHIVE_LAYOUT[6] == 2;
    assert r.Fields()[6] == r.commentSize;
    assert Pow256(2) == 65536;
  }

  lemma EndArchiveRoundTrip(r: EndRecord)
    requires |r.signature| == SIGNATURE_SIZE && Fits(END_ARCHIVE_LAYOUT, r.Fields())
    ensures DecodeEndArchive(EncodeEndArchive(r), r.comment, r.location) == r
  {
    var data := EncodeEndArchive(r);
    assert data[SIGNATURE_SIZE..] == Pack(END_ARCHIVE_LAYOUT, r.Fields());
    UnpackPack(END_ARCHIVE_LAYOUT, r.Fields());
  }

  lemma EndArchiveBytesRoundTrip(data: seq<byte>, comment: seq<byte>, location: nat)
    requires |data| == END_ARCHIVE_SIZE
    ensures EncodeEndArchive(DecodeEndArchive(data, comment, location)) == data
  {
    EndArchiveSize();
    var r := DecodeEndArchive(data, comment, location);
    assert r.Fields() == Unpack(END_ARCHIVE_LAYOUT, data[SIGNATURE_SIZE..]);
    PackUnpack(END_ARCHIVE_LAYOUT, data[SIGNATURE_SIZE..]);
    assert data == data[..SIGNATURE_SIZE] + data[SIGNATURE_SIZE..];
  }

  /** The ZIP64 end-of-central-directory locator (4.3.15). */
  datatype Locator64 = Locator64(signature: seq<byte>, diskNumber: nat, relativeOffset: nat, totalDisks: nat)
  {
    function Fields(): seq<nat> { [diskNumber, relativeOffset, totalDisks] }
  }

  function DecodeLocator64(data: seq<byte>): (r: Locator64)
    requires |data| == END_ARCHIVE64_LOCATOR_SIZE
    ensures r.signature == data[..SIGNATURE_SIZE] && Fits(END_ARCHIVE64_LOCATOR_LAYOUT, r.Fields())
  {
    Locator64Size();
    var f := Unpack(END_ARCHIVE64_LOCATOR_LAYOUT, data[SIGNATURE_SIZE..]);
    var r := Locator64(data[..SIGNATURE_SIZE], f[0], f[1], f[2]);
    assert |f| == |END_ARCHIVE64_LOCATOR_LAYOUT| == 3;
    assert r.Fields() == f;
    r
  }

  function EncodeLocator64(r: Locator64): (data: seq<byte>)
    requires |r.signature| == SIGNATURE_SIZE
    ensures |data| == END_ARCHIVE64_LOCATOR_SIZE
  {
    Locator64Size();
    r.signature + Pack(END_ARCHIVE64_LOCATOR_LAYOUT, r.Fields())
  }

  lemma Locator64RoundTrip(r: Locator64)
    requires |r.signature| == SIGNATURE_SIZE && Fits(END_ARCHIVE64_LOCATOR_LAYOUT, r.Fields())
    ensures DecodeLocator64(EncodeLocator64(r)) == r
  {
    var data := EncodeLocator64(r);
    assert data[SIGNATURE_SIZE..] == Pack(END_ARCHIVE64_LOCATOR_LAYOUT, r.Fields());
    UnpackPack(END_ARCHIVE64_LOCATOR_LAYOUT, r.Fields());
  }

  /** The ZIP64 end-of-central-directory record (4.3.14), without extensible data. */
  datatype End64Record = End64Record(
    signature: seq<byte>,
    recordSize: nat,
    createVersion: nat,
    readVersion: nat,
    diskNumber: nat,
    diskStart: nat,
    entriesThisDisk: nat,
    entriesTotal: nat,
    directorySize: nat,
    directoryOffset: nat)
  {
    function Fields(): seq<nat>
    {
      [recordSize, createVersion, readVersion, diskNumber, diskStart,
       entriesThisDisk, entriesTotal, directorySize, directoryOffset]
    }
  }

  function DecodeEnd64(data: seq<byte>): (r: End64Record)
    requires |data| == END_ARCHIVE64_SIZE
    ensures r.signature == data[..SIGNATURE_SIZE] && Fits(END_ARCHIVE64_LAYOUT, r.Fields())
  {
    End64Size();
    var f := Unpack(END_ARCHIVE64_LAYOUT, data[SIGNATURE_SIZE..]);
    var r := End64Record(data[..SIGNATURE_SIZE], f[0], f[1], f[2], f[3], f[4], f[5], f[6], f[7], f[8]);
    assert |f| == |END_ARCHIVE64_LAYOUT| == 9;
    NineFields(f);
    r
  }

  function EncodeEnd64(r: End64Record): (data: seq<byte>)
    requires |r.signature| == SIGNATURE_SIZE
    ensures |data| == END_ARCHIVE64_SIZE
  {
    End64Size();
    r.signature + Pack(END_ARCHIVE64_LAYOUT, r.Fields())
  }

  lemma End64RoundTrip(r: End64Record)
    requires |r.signature| == SIGNATURE_SIZE && Fits(END_ARCHIVE64_LAYOUT, r.Fields())
    ensures DecodeEnd64(EncodeEnd64(r)) == r
  {
    var data := EncodeEnd64(r);
    assert data[SIGNATURE_SIZE..] == Pack(END_ARCHIVE64_LAYOUT, r.Fields());
    UnpackPack(END_ARCHIVE64_LAYOUT, r.Fields());
  }

  /** A central-directory file header (4.3.12), without its name, extra and comment runs. */
  datatype CentralDirHeader = CentralDirHeader(
    signature: seq<byte>,
    createVersion: nat,
    createSystem: nat,
    extractVersion: nat,
    extractSystem: nat,
    flagBits: nat,
    compressType: nat,
    time: nat,
    date: nat,
    crc: nat,
    compressSize: nat,
    fileSize: nat,
    filenameLength: nat,
    extraLength: nat,
    commentLength: nat,
    diskNumberStart: nat,
    internalAttributes: nat,
    externalAttributes: nat,
    localHeaderOffset: nat)
  {
    function Fields(): seq<nat>
    {
      [createVersion, createSystem, extractVersion, extractSystem, flagBits, compressType,
       time, date, crc, compressSize, fileSize, filenameLength, extraLength, commentLength,
       diskNumberStart, internalAttributes, externalAttributes, localHeaderOffset]
    }
  }

  function DecodeCentralDir(data: seq<byte>): (r: CentralDirHeader)
    requires |data| == CENTRAL_DIR_SIZE
    ensures r.signature == data[..SIGNATURE_SIZE] && Fits(CENTRAL_DIR_LAYOUT, r.Fields())
  {
    CentralDirSize();
    var f := Unpack(CENTRAL_DIR_LAYOUT, data[SIGNATURE_SIZE..]);
    var r := CentralDirHeader(data[..SIGNATURE_SIZE], f[0], f[1], f[2], f[3], f[4], f[5], f[6], f[7], f[8],
      f[9], f[10], f[11], f[12], f[13], f[14], f[15], f[16], f[17]);
    assert |f| == |CENTRAL_DIR_LAYOUT| == 18;
    EighteenFields(f);
    r
  }

  /** A list of 7 fields, listed one by one, is the list itself. */
  lemma SevenFields(f: seq<nat>)
    requires |f| == 7
    ensures [f[0], f[1], f[2], f[3], f[4], f[5], f[6]] == f
  {
  }

  /** A list of 9 fields, listed one by one, is the list itself. */
  lemma NineFields(f: seq<nat>)
    requires |f| == 9
    ensures [f[0], f[1], f[2], f[3], f[4], f[5], f[6], f[7], f[8]] == f
  {
  }

  /** A list of 11 fields, listed one by one, is the list itself. */
  lemma ElevenFields(f: seq<nat>)
    requires |f| == 11
    ensures [f[0], f[1], f[2], f[3], f[4], f[5], f[6], f[7], f[8], f[9], f[10]] == f
  {
  }

  /** The 18 fields of a central-directory header, listed one by one, are the list itself. */
  lemma EighteenFields(f: seq<nat>)
    requires |f| == 18
    ensures [f[0], f[1], f[2], f[3], f[4], f[5], f[6], f[7], f[8], f[9], f[10], f[11], f[12], f[13],
             f[14], f[15], f[16], f[17]] == f
  {
  }

  function EncodeCentralDir(r: CentralDirHeader): (data: seq<byte>)
    requires |r.signature| == SIGNATURE_SIZE
    ensures |data| == CENTRAL_DIR_SIZE
  {
    CentralDirSize();
    r.signature + Pack(CENTRAL_DIR_LAYOUT, r.Fields())
  }

  lemma CentralDirRoundTrip(r: CentralDirHeader)
    requires |r.signature| == SIGNATURE_SIZE && Fits(CENTRAL_DIR_LAYOUT, r.Fields())
    ensures DecodeCentralDir(EncodeCentralDir(r)) == r
  {
    var data := EncodeCentralDir(r);
    assert data[SIGNATURE_SIZE..] == Pack(CENTRAL_DIR_LAYOUT, r.Fields());
    UnpackPack(CENTRAL_DIR_LAYOUT, r.Fields());
  }

  /** A local file header (4.3.7), without its name and extra runs. */
  datatype FileHeader = FileHeader(
    signature: seq<byte>,
    extractVersion: nat,
    extractSystem: nat,
    flagBits: nat,
    compressionMethod: nat,
    lastModTime: nat,
    lastModDate: nat,
    crc: nat,
    compressSize: nat,
    fileSize: nat,
    filenameLength: nat,
    extraLength: nat)
  {
    function Fields(): seq<nat>
    {
      [extractVersion, extractSystem, flagBits, compressionMethod, lastModTime, lastModDate,
       crc, compressSize, fileSize, filenameLength, extraLength]
    }
  }

  function DecodeFileHeader(data: seq<byte>): (r: FileHeader)
    requires |data| == FILE_HEADER_SIZE
    ensures r.signature == data[..SIGNATURE_SIZE] && Fits(FILE_HEADER_LAYOUT, r.Fields())
  {
    FileHeaderSize();
    var f := Unpack(FILE_HEADER_LAYOUT, data[SIGNATURE_SIZE..]);
    var r := FileHeader(data[..SIGNATURE_SIZE], f[0], f[1], f[2], f[3], f[4], f[5], f[6], f[7], f[8], f[9], f[10]);
    assert |f| == |FILE_HEADER_LAYOUT| == 11;
    ElevenFields(f);
    r
  }

  function EncodeFileHeader(r: FileHeader): (data: seq<byte>)
    requires |r.signature| == SIGNATURE_SIZE
    ensures |data| == FILE_HEADER_SIZE
  {
    FileHeaderSize();
    r.signature + Pack(FILE_HEADER_LAYOUT, r.Fields())
  }

  lemma FileHeaderRoundTrip(r: FileHeader)
    requires |r.signature| == SIGNATURE_SIZE && Fits(FILE_HEADER_LAYOUT, r.Fields())
    ensures DecodeFileHeader(EncodeFileHeader(r)) == r
  {
    var data := EncodeFileHeader(r);
    assert data[SIGNATURE_SIZE..] == Pack(FILE_HEADER_LAYOUT, r.Fields());
    UnpackPack(FILE_HEADER_LAYOUT, r.Fields());
  }
}
