/** The central directory of an archive as `_read_contents` reads it: where it starts, how
    its 46-byte headers and their name/extra/comment runs are walked, and the name-to-info
    dictionary the walk fills. */
module Directory {
  import opened ByteCodec
  import opened Wrappers
  import opened ZipRecords
  import opened ByteSource
  import opened EndLocator

  /** Decodes an entry name: UTF-8 when the flag is set, cp437 otherwise; `None` is a
      `UnicodeDecodeError`. The codecs themselves are not part of this model. */
  type NameDecoder = (seq<byte>, bool) -> Option<string>

  /** The attributes of `ZipInfoRO` that the reader assigns. */
  datatype ZipInfoRO = ZipInfoRO(
    filename: string,
    flagBits: nat,
    headerOffset: int,
    compressSize: nat,
    fileSize: nat)

  // ---------------------------------------------------------------------------------------
  // The name-to-info dictionary: assignment keeps a name's first position, takes the last value.

  /** A dict from names to infos with its insertion order. */
  datatype NameIndex = NameIndex(names: seq<string>, info: map<string, ZipInfoRO>)
  {
    ghost predicate Valid()
    {
      && (forall i, j :: 0 <= i < j < |names| ==> names[i] != names[j])
      && (forall n :: n in info <==> n in names)
    }
  }

  const EMPTY_INDEX: NameIndex := NameIndex([], map[])

  /** `d[name] = zinfo` */
  function Insert(idx: NameIndex, name: string, zinfo: ZipInfoRO): (r: NameIndex)
    requires idx.Valid()
    ensures r.Valid()
    ensures r.info == idx.info[name := zinfo]
    ensures name in idx.names ==> r.names == idx.names
    ensures name !in idx.names ==> r.names == idx.names + [name]
  {
    if name in idx.info then NameIndex(idx.names, idx.info[name := zinfo])
    else NameIndex(idx.names + [name], idx.info[name := zinfo])
  }

  /** The dictionary after assigning every entry, in order, by its file name. */
  function IndexOf(es: seq<ZipInfoRO>): (r: NameIndex)
    ensures r.Valid()
  {
    if es == [] then EMPTY_INDEX
    else Insert(IndexOf(es[..|es| - 1]), es[|es| - 1].filename, es[|es| - 1])
  }

  /** Assigning one more entry extends the dictionary built so far. */
  lemma IndexAppend(es: seq<ZipInfoRO>, e: ZipInfoRO)
    ensures IndexOf(es + [e]) == Insert(IndexOf(es), e.filename, e)
  {
    assert (es + [e])[..|es|] == es;
  }

  function Filenames(es: seq<ZipInfoRO>): (ns: seq<string>)
    ensures |ns| == |es| && forall i :: 0 <= i < |es| ==> ns[i] == es[i].filename
  {
    seq(|es|, i requires 0 <= i < |es| => es[i].filename)
  }

  /** Position of the first occurrence of `n` in `ns`. */
  function FirstIndex(ns: seq<string>, n: string): (i: nat)
    requires n in ns
    ensures i < |ns| && ns[i] == n && n !in ns[..i]
  {
    if ns[0] == n then 0 else 1 + FirstIndex(ns[1..], n)
  }

  /** Position of the last occurrence of `n` in `ns`. */
  function LastIndex(ns: seq<string>, n: string): (i: nat)
    requires n in ns
    ensures i < |ns| && ns[i] == n && n !in ns[i + 1..]
  {
    if ns[|ns| - 1] == n then |ns| - 1 else LastIndex(ns[..|ns| - 1], n)
  }

  lemma FirstIndexAppend(ns: seq<string>, m: string, n: string)
    requires n in ns
    ensures n in ns + [m] && FirstIndex(ns + [m], n) == FirstIndex(ns, n)
  {
    var i := FirstIndex(ns, n);
    assert (ns + [m])[i] == n && (ns + [m])[..i] == ns[..i];
  }

  /** The dictionary's keys are exactly the entries' names. */
  lemma {:induction false} IndexKeys(es: seq<ZipInfoRO>)
    ensures forall n :: n in IndexOf(es).names <==> n in Filenames(es)
  {
    if es != [] {
      var init := es[..|es| - 1];
      IndexKeys(init);
      assert Filenames(init) + [es[|es| - 1].filename] == Filenames(es);
    }
  }

  /** `names` lists members of `ns` in the order of their first occurrence there. */
  ghost predicate OrderedByFirst(names: seq<string>, ns: seq<string>)
  {
    forall a, b :: 0 <= a < b < |names| ==> FirstBefore(ns, names[a], names[b])
  }

  /** `x` and `y` occur in `ns`, `x` first. */
  ghost predicate FirstBefore(ns: seq<string>, x: string, y: string)
  {
    x in ns && y in ns && FirstIndex(ns, x) < FirstIndex(ns, y)
  }

  lemma OrderedAppend(names: seq<string>, ns: seq<string>, m: string)
    requires OrderedByFirst(names, ns)
    ensures OrderedByFirst(names, ns + [m])
  {
    var ns' := ns + [m];
    forall a, b | 0 <= a < b < |names|
      ensures FirstBefore(ns', names[a], names[b])
    {
      assert FirstBefore(ns, names[a], names[b]);
      FirstIndexAppend(ns, m, names[a]);
      FirstIndexAppend(ns, m, names[b]);
    }
  }

  lemma OrderedExtend(names: seq<string>, ns: seq<string>, m: string)
    requires OrderedByFirst(names, ns) && m !in ns
    requires forall n :: n in names ==> n in ns
    ensures OrderedByFirst(names + [m], ns + [m])
  {
    OrderedAppend(names, ns, m);
    var ns' := ns + [m];
    var names' := names + [m];
    assert FirstIndex(ns', m) == |ns| by {
      assert ns'[|ns|] == m && ns'[..|ns|] == ns;
    }
    forall a, b | 0 <= a < b < |names'|
      ensures FirstBefore(ns', names'[a], names'[b])
    {
      assert names'[a] == names[a] && names[a] in ns;
      if b < |names| {
        assert names'[b] == names[b];
      }
    }
  }

  /** Keys keep the order of their first occurrence in the directory. */
  lemma {:induction false} IndexOrder(es: seq<ZipInfoRO>)
    ensures OrderedByFirst(IndexOf(es).names, Filenames(es))
  {
    if es != [] {
      var init := es[..|es| - 1];
      var e := es[|es| - 1];
      IndexOrder(init);
      IndexKeys(init);
      var before := IndexOf(init);
      assert Filenames(init) + [e.filename] == Filenames(es);
      if e.filename in before.names {
        OrderedAppend(before.names, Filenames(init), e.filename);
      } else {
        OrderedExtend(before.names, Filenames(init), e.filename);
      }
    }
  }

  /** Each key maps to the last entry of that name. */
  lemma {:induction false} IndexValues(es: seq<ZipInfoRO>)
    ensures var idx := IndexOf(es);
            forall n :: n in idx.info ==> n in Filenames(es) && idx.info[n] == es[LastIndex(Filenames(es), n)]
  {
    if es != [] {
      var init := es[..|es| - 1];
      var e := es[|es| - 1];
      IndexValues(init);
      IndexKeys(es);
      var before := IndexOf(init);
      var idx := IndexOf(es);
      var ns := Filenames(es);
      assert ns[..|ns| - 1] == Filenames(init);
      forall n | n in idx.info ensures idx.info[n] == es[LastIndex(ns, n)]
      {
        if n != e.filename {
          assert n in before.info;
          assert LastIndex(ns, n) == LastIndex(Filenames(init), n);
          assert es[LastIndex(Filenames(init), n)] == init[LastIndex(Filenames(init), n)];
        }
      }
    }
  }

  /** `namelist()` in the plain case of distinct names: the names in directory order. */
  lemma {:induction false} DistinctNamesKeepOrder(es: seq<ZipInfoRO>)
    requires forall i, j :: 0 <= i < j < |es| ==> es[i].filename != es[j].filename
    ensures IndexOf(es).names == Filenames(es)
  {
    if es != [] {
      var init := es[..|es| - 1];
      var e := es[|es| - 1];
      assert forall i :: 0 <= i < |init| ==> init[i] == es[i];
      DistinctNamesKeepOrder(init);
      assert e.filename !in Filenames(init);
      assert Filenames(init) + [e.filename] == Filenames(es);
    }
  }

  lemma LastIndexDistinct(ns: seq<string>, i: nat)
    requires i < |ns|
    requires forall a, b :: 0 <= a < b < |ns| ==> ns[a] != ns[b]
    ensures LastIndex(ns, ns[i]) == i
  {
    var k := LastIndex(ns, ns[i]);
    assert ns[k] == ns[i];
  }

  /** With distinct names, every entry is found under its own name. */
  lemma DistinctNamesKeepInfo(es: seq<ZipInfoRO>)
    requires forall i, j :: 0 <= i < j < |es| ==> es[i].filename != es[j].filename
    ensures forall i :: 0 <= i < |es| ==> es[i].filename in IndexOf(es).info && IndexOf(es).info[es[i].filename] == es[i]
  {
    var idx := IndexOf(es);
    var ns := Filenames(es);
    IndexKeys(es);
    IndexValues(es);
    forall i | 0 <= i < |es| ensures es[i].filename in idx.info && idx.info[es[i].filename] == es[i]
    {
      LastIndexDistinct(ns, i);
    }
  }

  // ---------------------------------------------------------------------------------------
  // Where the directory starts.

  /** `concat`: how far the archive was shifted by bytes prepended to it. The directory is
      assumed to end where the end record (or, with ZIP64, its 76 bytes of records) starts. */
  function ConcatOffset(endrec: EndRecord): (concat: int)
    ensures endrec.signature != END_ARCHIVE64_STRING ==>
              concat + endrec.offset + endrec.size == endrec.location
    ensures endrec.signature == END_ARCHIVE64_STRING ==>
              concat + endrec.offset + endrec.size + END_ARCHIVE64_SIZE + END_ARCHIVE64_LOCATOR_SIZE == endrec.location
  {
    var concat := endrec.location - endrec.size - endrec.offset;
    if endrec.signature == END_ARCHIVE64_STRING then concat - (END_ARCHIVE64_SIZE + END_ARCHIVE64_LOCATOR_SIZE)
    else concat
  }

  /** An archive written at offset `shift` of a file, with its directory of `size` bytes at
      its own offset `offset` right before its end records, is read with `concat == shift`
      and its directory found at `shift + offset`. */
  lemma ConcatRecoversShift(endrec: EndRecord, shift: int, zip64: bool)
    requires zip64 <==> endrec.signature == END_ARCHIVE64_STRING
    requires endrec.location == shift + endrec.offset + endrec.size
                                + (if zip64 then END_ARCHIVE64_SIZE + END_ARCHIVE64_LOCATOR_SIZE else 0)
    ensures ConcatOffset(endrec) == shift
    ensures endrec.offset + ConcatOffset(endrec) == shift + endrec.offset
  {
  }

  // ---------------------------------------------------------------------------------------
  // The walk over the directory bytes.

  /** One parsed header: the info it yields and how many directory bytes the entry spans. */
  datatype Parsed = Parsed(info: ZipInfoRO, size: EntrySize)

  /** A directory entry spans at least its fixed header. */
  type EntrySize = n: nat | n >= CENTRAL_DIR_SIZE witness CENTRAL_DIR_SIZE

  /** The loop body of `_read_contents`, on the bytes `rest` that remain in the directory
      buffer at the cursor. A name, extra field or comment cut short by the end of the
      buffer is not an error here. */
  function ParseEntry(rest: seq<byte>, concat: int, decode: NameDecoder): (r: Result<Parsed>)
    ensures |rest| < CENTRAL_DIR_SIZE <==> r == Failure(BadZipFile(TruncatedDirectory))
  {
    if |rest| < CENTRAL_DIR_SIZE then
      Failure(BadZipFile(TruncatedDirectory))
    else
      ParseFixed(DecodeCentralDir(rest[..CENTRAL_DIR_SIZE]), rest, concat, decode)
  }

  /** The loop body of `_read_contents` once the fixed part `h` of a record is decoded from
      the first bytes of `rest`. */
  function ParseFixed(h: CentralDirHeader, rest: seq<byte>, concat: int, decode: NameDecoder): (r: Result<Parsed>)
    ensures r != Failure(BadZipFile(TruncatedDirectory))
    ensures h.signature != CENTRAL_DIR_STRING <==> r == Failure(BadZipFile(BadDirectoryMagic))
    ensures r.Success? ==>
              && h.compressType == ZIP_STORED
              && r.value.info.headerOffset == h.localHeaderOffset + concat
              && r.value.size == CENTRAL_DIR_SIZE + h.filenameLength + h.extraLength + h.commentLength
    ensures h.signature == CENTRAL_DIR_STRING && h.compressType != ZIP_STORED ==>
              r == Failure(AssertionError) || r == Failure(UnicodeDecodeError)
  {
    if h.signature != CENTRAL_DIR_STRING then
      Failure(BadZipFile(BadDirectoryMagic))
    else
      var nameBytes := ReadAt(rest, CENTRAL_DIR_SIZE, h.filenameLength);
      match decode(nameBytes, FlagSet(h.flagBits, UTF_FILENAME_BIT))
      case None => Failure(UnicodeDecodeError)
      case Some(name) =>
        if h.compressType != ZIP_STORED then
          Failure(AssertionError)
        else
          var info := ZipInfoRO(name, h.flagBits, h.localHeaderOffset + concat, h.compressSize, h.fileSize);
          Success(Parsed(info, CENTRAL_DIR_SIZE + h.filenameLength + h.extraLength + h.commentLength))
  }

  /** The bytes a `BytesIO` over `cd` still holds once `total` bytes were asked for. */
  function Remaining(cd: seq<byte>, total: nat): (rest: seq<byte>)
    ensures total <= |cd| ==> rest == cd[total..]
    ensures total >= |cd| ==> rest == []
  {
    if total <= |cd| then cd[total..] else []
  }

  /** `Success(prefix + rest)`, or the failure of `rest`. */
  function Prepend(prefix: seq<ZipInfoRO>, rest: Result<seq<ZipInfoRO>>): Result<seq<ZipInfoRO>>
  {
    match rest
    case Success(es) => Success(prefix + es)
    case Failure(e) => Failure(e)
  }

  /** The loop body of `_read_contents` for a given `concat` and name decoder. */
  function EntryParser(concat: int, decode: NameDecoder): seq<byte> -> Result<Parsed>
  {
    rest => ParseEntry(rest, concat, decode)
  }

  /** The entries `while total < size_cd` parses from offset `total` on, each with `parse`
      applied to the bytes remaining at the cursor. */
  function EntriesFrom(cd: seq<byte>, total: nat, sizeCd: nat, parse: seq<byte> -> Result<Parsed>): (r: Result<seq<ZipInfoRO>>)
    ensures total >= sizeCd ==> r == Success([])
    decreases sizeCd - total
  {
    if total >= sizeCd then Success([])
    else
      match parse(Remaining(cd, total))
      case Failure(e) => Failure(e)
      case Success(p) => Prepend([p.info], EntriesFrom(cd, total + p.size, sizeCd, parse))
  }

  /** The walk so far, `done`, followed by the entry `parse` finds at `total`. */
  lemma WalkAdvance(cd: seq<byte>, total: nat, sizeCd: nat, parse: seq<byte> -> Result<Parsed>,
                    done: seq<ZipInfoRO>, p: Parsed)
    requires total < sizeCd
    requires parse(Remaining(cd, total)) == Success(p)
    requires EntriesFrom(cd, 0, sizeCd, parse) == Prepend(done, EntriesFrom(cd, total, sizeCd, parse))
    ensures EntriesFrom(cd, 0, sizeCd, parse) == Prepend(done + [p.info], EntriesFrom(cd, total + p.size, sizeCd, parse))
  {
    PrependAssoc(done, [p.info], EntriesFrom(cd, total + p.size, sizeCd, parse));
  }

  /** The walk stops at the first entry `parse` rejects. */
  lemma WalkStops(cd: seq<byte>, total: nat, sizeCd: nat, parse: seq<byte> -> Result<Parsed>,
                  done: seq<ZipInfoRO>, e: Error)
    requires total < sizeCd
    requires parse(Remaining(cd, total)) == Failure(e)
    requires EntriesFrom(cd, 0, sizeCd, parse) == Prepend(done, EntriesFrom(cd, total, sizeCd, parse))
    ensures EntriesFrom(cd, 0, sizeCd, parse) == Failure(e)
  {
  }

  lemma PrependAssoc(a: seq<ZipInfoRO>, b: seq<ZipInfoRO>, rest: Result<seq<ZipInfoRO>>)
    ensures Prepend(a, Prepend(b, rest)) == Prepend(a + b, rest)
  {
    if rest.Success? {
      assert a + (b + rest.value) == (a + b) + rest.value;
    }
  }

  // ---------------------------------------------------------------------------------------
  // The directory as written, read back.

  /** One directory record as a writer lays it out: header, name, extra field, comment. */
  datatype DirRecord = DirRecord(header: CentralDirHeader, name: seq<byte>, extra: seq<byte>, comment: seq<byte>)
  {
    predicate WellFormed()
    {
      && header.signature == CENTRAL_DIR_STRING
      && Fits(CENTRAL_DIR_LAYOUT, header.Fields())
      && header.filenameLength == |name|
      && header.extraLength == |extra|
      && header.commentLength == |comment|
    }

    function Bytes(): (b: seq<byte>)
      requires WellFormed()
      ensures |b| == CENTRAL_DIR_SIZE + |name| + |extra| + |comment|
    {
      EncodeCentralDir(header) + name + extra + comment
    }

    /** The info the reader builds from this record. */
    function Info(concat: int, decoded: string): ZipInfoRO
    {
      ZipInfoRO(decoded, header.flagBits, header.localHeaderOffset + concat, header.compressSize, header.fileSize)
    }
  }

  function DirectoryBytes(rs: seq<DirRecord>): (b: seq<byte>)
    requires forall i :: 0 <= i < |rs| ==> rs[i].WellFormed()
  {
    if rs == [] then [] else rs[0].Bytes() + DirectoryBytes(rs[1..])
  }

  /** Shifting the directory bytes by a prefix shifts the walk with them. */
  lemma {:induction false} EntriesFromShift(prefix: seq<byte>, cd: seq<byte>, total: nat, sizeCd: nat, parse: seq<byte> -> Result<Parsed>)
    ensures EntriesFrom(prefix + cd, |prefix| + total, |prefix| + sizeCd, parse) == EntriesFrom(cd, total, sizeCd, parse)
    decreases sizeCd - total
  {
    if total < sizeCd {
      var whole := prefix + cd;
      assert Remaining(whole, |prefix| + total) == Remaining(cd, total) by {
        if total <= |cd| {
          assert whole[|prefix| + total..] == cd[total..];
        }
      }
      var parsed := parse(Remaining(cd, total));
      if parsed.Success? {
        EntriesFromShift(prefix, cd, total + parsed.value.size, sizeCd, parse);
      }
    }
  }

  /** One record, followed by anything, parses back to its info and its length. */
  lemma ParseRecord(r: DirRecord, after: seq<byte>, concat: int, decode: NameDecoder, name: string)
    requires r.WellFormed() && r.header.compressType == ZIP_STORED
    requires decode(r.name, FlagSet(r.header.flagBits, UTF_FILENAME_BIT)) == Some(name)
    ensures EntryParser(concat, decode)(r.Bytes() + after) == Success(Parsed(r.Info(concat, name), |r.Bytes()|))
  {
    var rest := r.Bytes() + after;
    var enc := EncodeCentralDir(r.header);
    assert rest[..CENTRAL_DIR_SIZE] == enc;
    CentralDirRoundTrip(r.header);
    assert rest[CENTRAL_DIR_SIZE .. CENTRAL_DIR_SIZE + |r.name|] == r.name;
  }

  /** A walk over `head + tail` whose first entry spans exactly `head` continues on `tail`. */
  lemma WalkFirst(head: seq<byte>, tail: seq<byte>, parse: seq<byte> -> Result<Parsed>, info: ZipInfoRO)
    requires |head| >= CENTRAL_DIR_SIZE
    requires parse(head + tail) == Success(Parsed(info, |head|))
    ensures EntriesFrom(head + tail, 0, |head + tail|, parse) == Prepend([info], EntriesFrom(tail, 0, |tail|, parse))
  {
    assert Remaining(head + tail, 0) == head + tail;
    EntriesFromShift(head, tail, 0, |tail|, parse);
  }

  /** The infos the reader should build from `rs`, given the decoded names. */
  function Infos(rs: seq<DirRecord>, names: seq<string>, concat: int): (es: seq<ZipInfoRO>)
    requires |names| == |rs|
    ensures |es| == |rs|
    ensures forall i :: 0 <= i < |rs| ==> es[i] == rs[i].Info(concat, names[i])
  {
    if rs == [] then [] else [rs[0].Info(concat, names[0])] + Infos(rs[1..], names[1..], concat)
  }

  /** A directory written from well-formed, stored records whose names decode is walked back
      into exactly their infos, in order, with `concat` added to every header offset. */
  lemma {:induction false} DirectoryRoundTrip(rs: seq<DirRecord>, names: seq<string>, concat: int, decode: NameDecoder)
    requires |names| == |rs|
    requires forall i :: 0 <= i < |rs| ==> rs[i].WellFormed() && rs[i].header.compressType == ZIP_STORED
    requires forall i :: 0 <= i < |rs| ==>
               decode(rs[i].name, FlagSet(rs[i].header.flagBits, UTF_FILENAME_BIT)) == Some(names[i])
    ensures var cd := DirectoryBytes(rs);
            EntriesFrom(cd, 0, |cd|, EntryParser(concat, decode)) == Success(Infos(rs, names, concat))
  {
    if rs != [] {
      var r := rs[0];
      var head := r.Bytes();
      var tail := DirectoryBytes(rs[1..]);
      ParseRecord(r, tail, concat, decode, names[0]);
      WalkFirst(head, tail, EntryParser(concat, decode), r.Info(concat, names[0]));
      DirectoryRoundTrip(rs[1..], names[1..], concat, decode);
    }
  }

  // ---------------------------------------------------------------------------------------
  // `_read_contents` as a whole.

  /** What a successful `_read_contents` leaves: `_start_dir` and the parsed entries. */
  datatype Contents = Contents(startDir: nat, entries: seq<ZipInfoRO>)

  /** `_read_contents` on a file holding `data`: an OSError while locating the end record and
      a missing end record both become "File is not a zip file". */
  function ReadContents(data: seq<byte>, decode: NameDecoder): (r: Result<Contents>)
  {
    match ExtractEndArchive(data)
    case Failure(e) => if e == OSError then Failure(BadZipFile(NotAZipFile)) else Failure(e)
    case Success(None) => Failure(BadZipFile(NotAZipFile))
    case Success(Some(endrec)) =>
      var concat := ConcatOffset(endrec);
      var startDir := endrec.offset + concat;
      if startDir < 0 then
        Failure(BadZipFile(BadDirectoryOffset))
      else
        var cd := ReadAt(data, startDir, endrec.size);
        match EntriesFrom(cd, 0, endrec.size, EntryParser(concat, decode))
        case Failure(e) => Failure(e)
        case Success(entries) => Success(Contents(startDir, entries))
  }

  /** `_read_contents` in terms of the file's bytes: without `PK\005\006` in the search
      window it is "File is not a zip file"; a success rests on a record whose signature is
      in the window, and without ZIP64 records the directory it reads ends right where that
      record starts. */
  lemma ReadContentsOutcomes(data: seq<byte>, decode: NameDecoder)
    ensures |data| < END_ARCHIVE_SIZE || (forall loc :: WindowStart(|data|) <= loc ==> !OccursAt(data, END_ARCHIVE_STRING, loc)) ==>
              ReadContents(data, decode) == Failure(BadZipFile(NotAZipFile))
    ensures ReadContents(data, decode).Success? ==>
              && LocateEndArchive(data).Some?
              && var found := LocateEndArchive(data).value;
                 && WindowStart(|data|) <= found.location && found.location + END_ARCHIVE_SIZE <= |data|
                 && OccursAt(data, END_ARCHIVE_STRING, found.location)
                 && (!HasLocator64(data, found.location) ==>
                       ReadContents(data, decode).value.startDir + found.size == found.location)
  {
    if ReadContents(data, decode).Success? {
      var found := LocateEndArchive(data).value;
      if !HasLocator64(data, found.location) {
        LocatedSignature(data);
        assert END_ARCHIVE_STRING != END_ARCHIVE64_STRING by { assert END_ARCHIVE_STRING[2] != END_ARCHIVE64_STRING[2]; }
      }
    }
  }

  /** `_read_contents` when a ZIP64 locator sits before the located record: a locator naming
      another disk or several disks is "multi-disk"; with no room for the 56-byte ZIP64 record
      the failed seek's `OSError` becomes "File is not a zip file". */
  lemma ReadContentsLocator(data: seq<byte>, decode: NameDecoder)
    requires LocateEndArchive(data).Some? && HasLocator64(data, LocateEndArchive(data).value.location)
    ensures var loc := LocateEndArchive(data).value.location;
            var locator := DecodeLocator64(data[loc - END_ARCHIVE64_LOCATOR_SIZE .. loc]);
            var oneDisk := locator.diskNumber == 0 && locator.totalDisks <= 1;
            && (!oneDisk ==> ReadContents(data, decode) == Failure(BadZipFile(MultiDisk)))
            && (oneDisk && loc < END_ARCHIVE64_LOCATOR_SIZE + END_ARCHIVE64_SIZE ==>
                  ReadContents(data, decode) == Failure(BadZipFile(NotAZipFile)))
  {
    var found := LocateEndArchive(data).value;
    Zip64StepOutcomes(data, found.location - |data|, found);
    var step := UpdateZip64(data, found.location - |data|, found);
    if step.Failure? {
      Zip64Failed(data, found, step.error);
      ReadContentsFails(data, decode, step.error);
    }
  }

  /** A failure to extract the end record is the failure of `_read_contents`, with `OSError`
      turned into "File is not a zip file". */
  lemma ReadContentsFails(data: seq<byte>, decode: NameDecoder, e: Error)
    requires ExtractEndArchive(data) == Failure(e)
    ensures ReadContents(data, decode) == Failure(if e == OSError then BadZipFile(NotAZipFile) else e)
  {
  }

  /** Reading `|b|` bytes at `|a|` from `a + b + c + d` gives `b`. */
  lemma ReadBetween(a: seq<byte>, b: seq<byte>, c: seq<byte>, d: seq<byte>)
    ensures ReadAt(a + b + c + d, |a|, |b|) == b
  {
    var r := ReadAt(a + b + c + d, |a|, |b|);
    assert (a + b + c + d)[|a| .. |a| + |b|] == b;
  }

  /** `_read_contents` once the end record is known and points at or after the file's
      start: the outcome of walking the `size_cd` bytes read there. */
  lemma ReadContentsWalked(data: seq<byte>, endrec: EndRecord, decode: NameDecoder, startDir: nat, cd: seq<byte>)
    requires ExtractEndArchive(data) == Success(Some(endrec))
    requires endrec.offset + ConcatOffset(endrec) == startDir
    requires ReadAt(data, startDir, endrec.size) == cd
    ensures ReadContents(data, decode) ==
              match EntriesFrom(cd, 0, endrec.size, EntryParser(ConcatOffset(endrec), decode))
              case Failure(e) => Failure(e)
              case Success(es) => Success(Contents(startDir, es))
  {
  }

  /** `_read_contents` once the end record is known and the directory it points to walks. */
  lemma ReadContentsFound(data: seq<byte>, endrec: EndRecord, decode: NameDecoder, startDir: nat, concat: int,
                          cd: seq<byte>, es: seq<ZipInfoRO>)
    requires ExtractEndArchive(data) == Success(Some(endrec))
    requires ConcatOffset(endrec) == concat && endrec.offset + concat == startDir
    requires endrec.size == |cd| && ReadAt(data, startDir, endrec.size) == cd
    requires EntriesFrom(cd, 0, |cd|, EntryParser(concat, decode)) == Success(es)
    ensures ReadContents(data, decode) == Success(Contents(startDir, es))
  {
  }

  /** The end record of an archive written after its directory `dir`, with `junk` before the
      archive, is found, and it points back at `dir` with `concat == |junk|`. */
  lemma EndRecordFindsDirectory(data: seq<byte>, junk: seq<byte>, body: seq<byte>, dir: seq<byte>,
                                rec: EndRecord, comment: seq<byte>)
    requires rec.signature == END_ARCHIVE_STRING && Fits(END_ARCHIVE_LAYOUT, rec.Fields())
    requires |comment| <= rec.commentSize
    requires rec.offset == |body| && rec.size == |dir|
    requires data == junk + body + dir + EncodeEndArchive(rec) + comment
    requires forall j :: |junk + body + dir| < j ==> !OccursAt(data, END_ARCHIVE_STRING, j)
    requires !HasLocator64(data, |junk + body + dir|)
    ensures var endrec := rec.(comment := comment, location := |junk + body + dir|);
            && ExtractEndArchive(data) == Success(Some(endrec))
            && ConcatOffset(endrec) == |junk|
            && endrec.offset + |junk| == |junk + body|
            && ReadAt(data, |junk + body|, endrec.size) == dir
  {
    var prefix := junk + body + dir;
    var endrec := rec.(comment := comment, location := |prefix|);
    ExtractPlainArchive(prefix, rec, comment);
    assert END_ARCHIVE_STRING != END_ARCHIVE64_STRING by { assert END_ARCHIVE_STRING[2] != END_ARCHIVE64_STRING[2]; }
    ConcatRecoversShift(endrec, |junk|, false);
    ReadBetween(junk + body, dir, EncodeEndArchive(rec), comment);
    assert endrec.offset + |junk| == |junk + body|;
  }

  /** An archive laid out by a writer (entry bodies, then the directory, then the end record
      and its comment) and prepended with `junk` is read back: the directory is found at
      `|junk| + |body|`, and every info is the written header with `|junk|` added to its
      local header offset. */
  lemma {:induction false} ArchiveRoundTrip(data: seq<byte>, junk: seq<byte>, body: seq<byte>, rs: seq<DirRecord>,
                                            names: seq<string>, rec: EndRecord, comment: seq<byte>, decode: NameDecoder)
    requires |names| == |rs|
    requires forall i :: 0 <= i < |rs| ==> rs[i].WellFormed() && rs[i].header.compressType == ZIP_STORED
    requires forall i :: 0 <= i < |rs| ==>
               decode(rs[i].name, FlagSet(rs[i].header.flagBits, UTF_FILENAME_BIT)) == Some(names[i])
    requires rec.signature == END_ARCHIVE_STRING && Fits(END_ARCHIVE_LAYOUT, rec.Fields())
    requires |comment| <= rec.commentSize
    requires rec.offset == |body| && rec.size == |DirectoryBytes(rs)|
    requires data == junk + body + DirectoryBytes(rs) + EncodeEndArchive(rec) + comment
    requires forall j :: |junk + body + DirectoryBytes(rs)| < j ==> !OccursAt(data, END_ARCHIVE_STRING, j)
    requires !HasLocator64(data, |junk + body + DirectoryBytes(rs)|)
    ensures ReadContents(data, decode) == Success(Contents(|junk + body|, Infos(rs, names, |junk|)))
  {
    var dir := DirectoryBytes(rs);
    EndRecordFindsDirectory(data, junk, body, dir, rec, comment);
    DirectoryRoundTrip(rs, names, |junk|, decode);
    var endrec := rec.(comment := comment, location := |junk + body + dir|);
    ReadContentsFound(data, endrec, decode, |junk + body|, |junk|, dir, Infos(rs, names, |junk|));
  }

  /** The end records of a ZIP64 archive written after its directory `dir`, with `junk`
      before the archive, are found; the updated record points back at `dir`, and `concat`
      is `|junk|` once the 76 bytes of ZIP64 records are taken off. */
  lemma Zip64RecordFindsDirectory(data: seq<byte>, junk: seq<byte>, body: seq<byte>, dir: seq<byte>,
                                  rec64: End64Record, locator: Locator64, rec: EndRecord, comment: seq<byte>)
    requires rec64.signature == END_ARCHIVE64_STRING && Fits(END_ARCHIVE64_LAYOUT, rec64.Fields())
    requires locator.signature == END_ARCHIVE64_LOCATOR_STRING && Fits(END_ARCHIVE64_LOCATOR_LAYOUT, locator.Fields())
    requires locator.diskNumber == 0 && locator.totalDisks <= 1
    requires rec.signature == END_ARCHIVE_STRING && Fits(END_ARCHIVE_LAYOUT, rec.Fields())
    requires |comment| <= rec.commentSize
    requires rec64.directoryOffset == |body| && rec64.directorySize == |dir|
    requires data == junk + body + dir + EncodeEnd64(rec64) + EncodeLocator64(locator) + EncodeEndArchive(rec) + comment
    requires forall j :: |junk + body + dir| + END_ARCHIVE64_SIZE + END_ARCHIVE64_LOCATOR_SIZE < j ==>
               !OccursAt(data, END_ARCHIVE_STRING, j)
    ensures var location := |junk + body + dir| + END_ARCHIVE64_SIZE + END_ARCHIVE64_LOCATOR_SIZE;
            var endrec := Zip64Updated(rec.(comment := comment, location := location), rec64);
            && ExtractEndArchive(data) == Success(Some(endrec))
            && ConcatOffset(endrec) == |junk|
            && endrec.offset + |junk| == |junk + body|
            && ReadAt(data, |junk + body|, endrec.size) == dir
  {
    var pre := junk + body + dir;
    var records := EncodeEnd64(rec64) + EncodeLocator64(locator) + EncodeEndArchive(rec);
    var location := |pre| + END_ARCHIVE64_SIZE + END_ARCHIVE64_LOCATOR_SIZE;
    var endrec := Zip64Updated(rec.(comment := comment, location := location), rec64);
    ExtractZip64Archive(pre, rec64, locator, rec, comment);
    ConcatRecoversShift(endrec, |junk|, true);
    Regroup(junk + body, dir, EncodeEnd64(rec64), EncodeLocator64(locator), EncodeEndArchive(rec), comment);
    ReadBetween(junk + body, dir, records, comment);
  }

  lemma Regroup(a: seq<byte>, b: seq<byte>, c: seq<byte>, d: seq<byte>, e: seq<byte>, f: seq<byte>)
    ensures a + b + c + d + e + f == a + b + (c + d + e) + f
  {
  }

  /** A ZIP64 archive laid out by a writer (entry bodies, the directory, the ZIP64 end
      record and locator, then the end record and its comment) and prepended with `junk` is
      read back: the directory is found at `|junk| + |body|` from the ZIP64 size and offset,
      and every info is the written header with `|junk|` added to its local header offset. */
  lemma {:induction false} Zip64ArchiveRoundTrip(data: seq<byte>, junk: seq<byte>, body: seq<byte>, rs: seq<DirRecord>,
                                                 names: seq<string>, rec64: End64Record, locator: Locator64,
                                                 rec: EndRecord, comment: seq<byte>, decode: NameDecoder)
    requires |names| == |rs|
    requires forall i :: 0 <= i < |rs| ==> rs[i].WellFormed() && rs[i].header.compressType == ZIP_STORED
    requires forall i :: 0 <= i < |rs| ==>
               decode(rs[i].name, FlagSet(rs[i].header.flagBits, UTF_FILENAME_BIT)) == Some(names[i])
    requires rec64.signature == END_ARCHIVE64_STRING && Fits(END_ARCHIVE64_LAYOUT, rec64.Fields())
    requires locator.signature == END_ARCHIVE64_LOCATOR_STRING && Fits(END_ARCHIVE64_LOCATOR_LAYOUT, locator.Fields())
    requires locator.diskNumber == 0 && locator.totalDisks <= 1
    requires rec.signature == END_ARCHIVE_STRING && Fits(END_ARCHIVE_LAYOUT, rec.Fields())
    requires |comment| <= rec.commentSize
    requires rec64.directoryOffset == |body| && rec64.directorySize == |DirectoryBytes(rs)|
    requires data == junk + body + DirectoryBytes(rs) + EncodeEnd64(rec64) + EncodeLocator64(locator)
                     + EncodeEndArchive(rec) + comment
    requires forall j :: |junk + body + DirectoryBytes(rs)| + END_ARCHIVE64_SIZE + END_ARCHIVE64_LOCATOR_SIZE < j ==>
               !OccursAt(data, END_ARCHIVE_STRING, j)
    ensures ReadContents(data, decode) == Success(Contents(|junk + body|, Infos(rs, names, |junk|)))
  {
    var dir := DirectoryBytes(rs);
    Zip64RecordFindsDirectory(data, junk, body, dir, rec64, locator, rec, comment);
    DirectoryRoundTrip(rs, names, |junk|, decode);
    var location := |junk + body + dir| + END_ARCHIVE64_SIZE + END_ARCHIVE64_LOCATOR_SIZE;
    var endrec := Zip64Updated(rec.(comment := comment, location := location), rec64);
    ReadContentsFound(data, endrec, decode, |junk + body|, |junk|, dir, Infos(rs, names, |junk|));
  }
}
