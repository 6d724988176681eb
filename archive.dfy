/** The read-only archive, its shared file handles, and the readers `open()` returns. */
module Archive {
  import opened ByteCodec
  import opened Wrappers
  import opened ZipRecords
  import opened ByteSource
  import opened Directory
  import opened LocalHeader
  import opened EndLocator

  function Min(a: int, b: int): int { if a <= b then a else b }
  function Max(a: int, b: int): int { if a >= b then a else b }

  /** What `open()` is given: a member name, or an info object used as it is. */
  datatype Member = ByName(name: string) | ByInfo(zinfo: ZipInfoRO)

  // ---------------------------------------------------------------------------------------
  // `_SharedFileRO`: a handle with its own position on the archive's one file object.

  class SharedFileRO {
    /** The archive's file object, until this handle is closed. */
    var file: OsFile?
    var pos: int
    /** The archive whose `_close` this handle calls. */
    const owner: ZipFileRO
    ghost const source: OsFile

    ghost predicate Valid()
      reads this
    {
      file == null || file == source
    }

    constructor (file: OsFile, pos: int, owner: ZipFileRO)
      ensures Valid() && this.file == file && source == file && this.pos == pos && this.owner == owner
    {
      this.file := file;
      this.pos := pos;
      this.owner := owner;
      source := file;
    }

    /** `tell()`: the handle's own position, not that of the shared file object. */
    function Tell(): (p: int)
      reads this
      ensures p == pos
    {
      pos
    }

    /** `seek` moves the shared file object (relative to where that object is, for
        whence 1) and takes up its new position. */
    method Seek(offset: int, whence: int) returns (r: Result<int>)
      requires Valid()
      modifies this`pos, source`pos
      ensures Valid()
      ensures old(file) == null ==> r == Failure(AttributeError) && pos == old(pos) && source.pos == old(source.pos)
      ensures old(file) != null && r.Failure? ==> pos == old(pos) && source.pos == old(source.pos)
      ensures old(file) != null && !source.closed && (whence == SEEK_SET || whence == SEEK_CUR || whence == SEEK_END) ==>
                var target := SeekTarget(|source.data|, old(source.pos), offset, whence);
                if target < 0 then r == Failure(OSError)
                else r == Success(target) && pos == target && source.pos == target
      ensures old(file) != null && (source.closed || (whence != SEEK_SET && whence != SEEK_CUR && whence != SEEK_END)) ==>
                r == Failure(ValueError)
    {
      if file == null {
        return Failure(AttributeError);
      }
      var s := file.Seek(offset, whence);
      if s.Failure? {
        return Failure(s.error);
      }
      pos := file.pos;
      r := Success(pos);
    }

    /** `read` seeks the shared file object back to this handle's position first, so that
        handles on the same file do not disturb each other. */
    method Read(n: int) returns (r: Result<seq<byte>>)
      requires Valid()
      modifies this`pos, source`pos
      ensures Valid()
      ensures old(file) == null ==> r == Failure(AttributeError) && pos == old(pos) && source.pos == old(source.pos)
      ensures old(file) != null && source.closed ==> r == Failure(ValueError) && pos == old(pos)
      ensures old(file) != null && !source.closed && old(pos) < 0 ==> r == Failure(OSError) && pos == old(pos)
      ensures old(file) != null && !source.closed && old(pos) >= 0 ==>
                r == Success(ReadAt(source.data, old(pos), n)) && pos == old(pos) + |r.value| && source.pos == pos
    {
      if file == null {
        return Failure(AttributeError);
      }
      var s := file.Seek(pos, SEEK_SET);
      if s.Failure? {
        return Failure(s.error);
      }
      var data := file.Read(n);
      pos := file.pos;
      r := data;
    }

    /** `close` hands the file object back to the archive once; later calls do nothing. */
    method Close()
      requires Valid() && owner.Valid() && source == owner.source
      requires file != null ==> this in owner.handles
      modifies this`file, owner`refCount, owner`handles, owner.source`closed, owner.source`closeCalls
      ensures Valid() && owner.Valid() && file == null
      ensures old(file) == null ==> owner.refCount == old(owner.refCount) && owner.handles == old(owner.handles)
                                    && unchanged(owner.source)
      ensures old(file) != null ==> owner.refCount == old(owner.refCount) - 1 && owner.handles == old(owner.handles) - {this}
      ensures old(file) != null && (owner.refCount != 0 || owner.filePassed) ==> unchanged(owner.source)
      ensures old(file) != null && owner.refCount == 0 && !owner.filePassed ==>
                owner.source.closed && owner.source.closeCalls == old(owner.source.closeCalls) + 1
    {
      if file != null {
        var f := file;
        file := null;
        var _ := owner.Release(f, {this});
      }
    }
  }

  // ---------------------------------------------------------------------------------------
  // `ZipFileRO`

  class ZipFileRO {
    var startDir: int
    /** `_name_to_info`, with the directory entries it was filled from. */
    var index: NameIndex
    ghost var entries: seq<ZipInfoRO>
    /** Whether the caller passed an open file object rather than a path. */
    const filePassed: bool
    var file: OsFile?
    var refCount: int
    /** The name codec of the walk and of `open()`. */
    const decode: NameDecoder
    /** The file object the archive was created on, and the handles sharing it. */
    ghost const source: OsFile
    ghost var handles: set<SharedFileRO>
    ghost const baseCloseCalls: nat

    ghost predicate IndexValid()
      reads this
    {
      index == IndexOf(entries)
    }

    /** One reference is held by the archive while it is open and one by every handle not
        yet closed; the file object is closed exactly when the last reference goes, and only
        if the archive opened it itself. */
    ghost predicate Valid()
      reads this, source, handles
    {
      && IndexValid()
      && (file == null || file == source)
      && (forall h :: h in handles ==> h.owner == this && h.source == source && h.file == source)
      && refCount == |handles| + (if file != null then 1 else 0)
      && source.closeCalls == baseCloseCalls + (if refCount == 0 && !filePassed then 1 else 0)
      && (!filePassed ==> (source.closed <==> refCount == 0))
    }

    constructor (file: OsFile, filePassed: bool, decode: NameDecoder)
      requires !filePassed ==> !file.closed
      ensures Valid() && this.file == file && source == file && this.filePassed == filePassed
      ensures this.decode == decode && refCount == 1 && handles == {} && entries == []
    {
      startDir := 0;
      index := EMPTY_INDEX;
      entries := [];
      this.filePassed := filePassed;
      this.file := file;
      refCount := 1;
      this.decode := decode;
      source := file;
      handles := {};
      baseCloseCalls := file.closeCalls;
    }

    /** `ZipFileRO(file)`: the directory is read at once; if that fails the archive's
        reference is given up, which closes a file the archive opened itself. */
    static method Create(file: OsFile, filePassed: bool, decode: NameDecoder) returns (r: Result<ZipFileRO>)
      requires !filePassed ==> !file.closed
      modifies file`pos, file`closed, file`closeCalls
      ensures r.Success? ==> fresh(r.value) && r.value.Valid() && r.value.file == file && r.value.source == file
                             && r.value.refCount == 1 && r.value.handles == {} && r.value.decode == decode
                             && r.value.filePassed == filePassed
      ensures old(file.closed) ==> r == Failure(ValueError)
      ensures !old(file.closed) ==>
                match Directory.ReadContents(file.data, decode)
                case Success(c) => r.Success? && r.value.startDir == c.startDir && r.value.entries == c.entries
                case Failure(e) => r == Failure(e)
      ensures r.Failure? && !filePassed ==> file.closed && file.closeCalls == old(file.closeCalls) + 1
      ensures r.Failure? && filePassed ==> file.closed == old(file.closed) && file.closeCalls == old(file.closeCalls)
    {
      var z := new ZipFileRO(file, filePassed, decode);
      var res := z.ReadContents();
      if res.Failure? {
        var fp := z.file;
        z.file := null;
        var _ := z.Release(fp, {});
        return Failure(res.error);
      }
      r := Success(z);
    }

    /** `_read_contents`: locate the end record, then walk the directory with a cursor over
        its bytes, assigning each entry to `_name_to_info` under its name. */
    method ReadContents() returns (r: Result<()>)
      requires file == source && entries == [] && IndexValid()
      modifies this`startDir, this`index, this`entries, source`pos
      ensures IndexValid()
      ensures old(source.closed) ==> r == Failure(ValueError)
      ensures !old(source.closed) ==>
                match Directory.ReadContents(source.data, decode)
                case Success(c) => r == Success(()) && startDir == c.startDir && entries == c.entries
                case Failure(e) => r == Failure(e)
    {
      var fp := file;
      var atEnd := fp.Seek(0, SEEK_END);
      if atEnd.Failure? {
        return Failure(atEnd.error);
      }
      var extracted := ExtractEndArchive(fp.data);
      if extracted.Failure? {
        if extracted.error == OSError {
          return Failure(BadZipFile(NotAZipFile));
        }
        return Failure(extracted.error);
      }
      if extracted.value.None? {
        return Failure(BadZipFile(NotAZipFile));
      }
      var endrec := extracted.value.value;
      var sizeCd := endrec.size;
      var concat := ConcatOffset(endrec);
      startDir := endrec.offset + concat;
      if startDir < 0 {
        return Failure(BadZipFile(BadDirectoryOffset));
      }
      var _ := fp.Seek(startDir, SEEK_SET);
      var read := fp.Read(sizeCd);
      var cd := read.value;
      assert cd == ReadAt(source.data, startDir, sizeCd);
      ReadContentsWalked(source.data, endrec, decode, startDir, cd);
      ghost var parse := EntryParser(concat, decode);
      assert forall rest {:trigger ParseEntry(rest, concat, decode)} :: parse(rest) == ParseEntry(rest, concat, decode);
      r := WalkDirectory(cd, sizeCd, concat, parse);
    }

    /** The directory loop of `_read_contents` over the `size_cd` bytes `cd` read from
        `_start_dir`, walked with a cursor as over a `BytesIO`. */
    method WalkDirectory(cd: seq<byte>, sizeCd: nat, concat: int, ghost parse: seq<byte> -> Result<Parsed>)
      returns (r: Result<()>)
      requires forall rest {:trigger ParseEntry(rest, concat, decode)} :: parse(rest) == ParseEntry(rest, concat, decode)
      requires entries == [] && IndexValid()
      modifies this`index, this`entries
      ensures IndexValid()
      ensures match EntriesFrom(cd, 0, sizeCd, parse)
              case Success(es) => r == Success(()) && entries == es
              case Failure(e) => r == Failure(e)
    {
      ghost var walk := EntriesFrom(cd, 0, sizeCd, parse);
      assert walk.Success? ==> [] + walk.value == walk.value;

      var total: nat := 0;
      var cursor: nat := 0;
      while total < sizeCd
        invariant cursor == Min(total, |cd|)
        invariant IndexValid()
        invariant EntriesFrom(cd, 0, sizeCd, parse) == Prepend(entries, EntriesFrom(cd, total, sizeCd, parse))
        decreases sizeCd - total
      {
        var step, next := ReadEntry(cd, cursor, concat, decode, total, parse);
        if step.Failure? {
          WalkStops(cd, total, sizeCd, parse, entries, step.error);
          return Failure(step.error);
        }
        var zinfo := step.value.info;
        var size := step.value.size;
        WalkAdvance(cd, total, sizeCd, parse, entries, step.value);
        AddEntry(zinfo);
        total := total + size;
        cursor := next;
      }
      assert entries + [] == entries;
      assert walk == Success(entries);
      r := Success(());
    }

    /** `self._name_to_info[x.filename] = x` for the next entry of the directory. */
    method AddEntry(zinfo: ZipInfoRO)
      requires IndexValid()
      modifies this`index, this`entries
      ensures IndexValid() && entries == old(entries) + [zinfo]
    {
      IndexAppend(entries, zinfo);
      index := Insert(index, zinfo.filename, zinfo);
      entries := entries + [zinfo];
    }

    /** `namelist()`: every name in the directory once, in the order it first appears. */
    function Namelist(): (names: seq<string>)
      requires IndexValid()
      reads this
      ensures forall n :: n in names <==> n in Filenames(entries)
      ensures forall i, j :: 0 <= i < j < |names| ==> names[i] != names[j]
      ensures OrderedByFirst(names, Filenames(entries))
    {
      IndexKeys(entries);
      IndexOrder(entries);
      index.names
    }

    /** `getinfo(name)`: the last directory entry of that name, or KeyError. */
    function GetInfo(name: string): (r: Result<ZipInfoRO>)
      requires IndexValid()
      reads this
      ensures r.Success? <==> name in Filenames(entries)
      ensures r.Success? ==> r.value == entries[LastIndex(Filenames(entries), name)]
      ensures r.Failure? ==> r.error == KeyError
    {
      IndexKeys(entries);
      IndexValues(entries);
      if name in index.info then Success(index.info[name]) else Failure(KeyError)
    }

    /** `_close(file)`: give up one reference; the last one closes a file the archive opened
        itself. `gone` is the handle, if any, whose reference this is. */
    method Release(f: OsFile, ghost gone: set<SharedFileRO>) returns (r: Result<()>)
      modifies this`refCount, this`handles, f`closed, f`closeCalls
      ensures old(refCount) <= 0 ==> r == Failure(AssertionError) && refCount == old(refCount)
                                     && handles == old(handles) && unchanged(f)
      ensures old(refCount) > 0 ==> r == Success(()) && refCount == old(refCount) - 1 && handles == old(handles) - gone
      ensures old(refCount) > 0 && refCount == 0 && !filePassed ==> f.closed && f.closeCalls == old(f.closeCalls) + 1
      ensures old(refCount) > 0 && (refCount != 0 || filePassed) ==> unchanged(f)
    {
      if refCount <= 0 {
        return Failure(AssertionError);
      }
      refCount := refCount - 1;
      handles := handles - gone;
      if refCount == 0 && !filePassed {
        f.Close();
      }
      r := Success(());
    }

    /** The entry `open()` resolves a member to: the info given, or the last directory
        entry of the name given. */
    ghost function Resolve(member: Member): (r: Result<ZipInfoRO>)
      requires IndexValid()
      reads this
    {
      match member
      case ByInfo(zinfo) => Success(zinfo)
      case ByName(name) => GetInfo(name)
    }

    /** `open(name)`: a reader over one entry, sharing the archive's file object through a
        handle of its own, which holds a reference. A failure after the reference was taken
        gives it back, so the count and the file object's state are as before. */
    method Open(member: Member) returns (r: Result<ZipFilePartRO>)
      requires Valid()
      modifies this`refCount, this`handles, source`pos, source`closed, source`closeCalls
      ensures Valid() && file == old(file)
      ensures old(file) == null ==> r == Failure(ValueError)
      ensures old(file) != null && Resolve(member).Failure? ==> r == Failure(KeyError)
      ensures r.Failure? ==> refCount == old(refCount) && handles == old(handles)
                             && source.closed == old(source.closed) && source.closeCalls == old(source.closeCalls)
      ensures r.Success? ==> fresh(r.value) && r.value.Valid() && !r.value.closed && r.value.readBuffer == []
                             && r.value.fileobj.source == source
      ensures old(file) != null && Resolve(member).Success? ==>
                var zinfo := Resolve(member).value;
                var check := if old(source.closed) then Failure(ValueError)
                             else LocalHeaderCheck(source.data, zinfo, decode);
                match check
                case Failure(e) => r == Failure(e)
                case Success(start) =>
                  && r.Success? && fresh(r.value) && fresh(r.value.fileobj)
                  && r.value.Valid() && !r.value.closed && r.value.closeFileobj
                  && r.value.fileobj.owner == this && r.value.fileobj.source == source
                  && r.value.name == zinfo.filename && r.value.origCompressStart == start
                  && r.value.origCompressSize == zinfo.compressSize && r.value.origFileSize == zinfo.fileSize
                  && r.value.Position() == 0 && r.value.readBuffer == []
                  && refCount == old(refCount) + 1 && handles == old(handles) + {r.value.fileobj}
    {
      if file == null {
        return Failure(ValueError);
      }
      var zinfo: ZipInfoRO;
      match member {
        case ByInfo(z) =>
          zinfo := z;
        case ByName(name) =>
          var found := GetInfo(name);
          if found.Failure? {
            return Failure(found.error);
          }
          zinfo := found.value;
      }
      r := OpenEntry(zinfo);
    }

    /** The part of `open()` after the entry is known: take a reference for a new shared
        handle on the header offset, check the local header through it, and either build the
        reader on it or close it again. */
    method OpenEntry(zinfo: ZipInfoRO) returns (r: Result<ZipFilePartRO>)
      requires Valid() && file != null
      modifies this`refCount, this`handles, source`pos, source`closed, source`closeCalls
      ensures Valid() && file == old(file)
      ensures r.Failure? ==> refCount == old(refCount) && handles == old(handles)
                             && source.closed == old(source.closed) && source.closeCalls == old(source.closeCalls)
      ensures r.Success? ==> fresh(r.value) && r.value.Valid() && !r.value.closed && r.value.readBuffer == []
                             && r.value.fileobj.source == source
      ensures var check := if old(source.closed) then Failure(ValueError)
                           else LocalHeaderCheck(source.data, zinfo, decode);
              match check
              case Failure(e) => r == Failure(e)
              case Success(start) =>
                && r.Success? && fresh(r.value) && fresh(r.value.fileobj)
                && r.value.Valid() && !r.value.closed && r.value.closeFileobj
                && r.value.fileobj.owner == this && r.value.fileobj.source == source
                && r.value.name == zinfo.filename && r.value.origCompressStart == start
                && r.value.origCompressSize == zinfo.compressSize && r.value.origFileSize == zinfo.fileSize
                && r.value.Position() == 0 && r.value.readBuffer == []
                && refCount == old(refCount) + 1 && handles == old(handles) + {r.value.fileobj}
    {
      var shared := TakeHandle(zinfo.headerOffset);
      var start := CheckLocalHeader(shared, zinfo, decode);
      if start.Failure? {
        shared.Close();
        return Failure(start.error);
      }
      var part := new ZipFilePartRO(shared, zinfo, true);
      r := Success(part);
    }

    /** `_file_ref_count += 1` and a new `_SharedFileRO` at `pos` on the file object. */
    method TakeHandle(pos: int) returns (shared: SharedFileRO)
      requires Valid() && file != null
      modifies this`refCount, this`handles
      ensures Valid() && fresh(shared) && shared.Valid() && shared.owner == this
      ensures shared.file == source && shared.source == source && shared.pos == pos
      ensures refCount == old(refCount) + 1 && handles == old(handles) + {shared} && shared !in old(handles)
    {
      refCount := refCount + 1;
      shared := new SharedFileRO(file, pos, this);
      handles := handles + {shared};
    }

    /** `close()`: give up the archive's own reference, once. */
    method Close()
      requires Valid()
      modifies this`file, this`refCount, this`handles, source`closed, source`closeCalls
      ensures Valid() && file == null && handles == old(handles)
      ensures old(file) == null ==> refCount == old(refCount) && unchanged(source)
      ensures old(file) != null ==> refCount == old(refCount) - 1
      ensures old(file) != null && refCount == 0 && !filePassed ==>
                source.closed && source.closeCalls == old(source.closeCalls) + 1
      ensures refCount != 0 || filePassed ==> unchanged(source)
    {
      if file == null {
        return;
      }
      var f := file;
      file := null;
      var _ := Release(f, {});
    }
  }

  // ---------------------------------------------------------------------------------------
  // `ZipFilePartRO`: a reader over one stored entry.

  /** `1 << 31 - 1`, which Python groups as `1 << 30`. */
  const MAX_N: nat := 0x4000_0000
  const MIN_READ_SIZE: nat := 4096
  const MAX_SEEK_READ: nat := 0x100_0000

  predicate IsWhence(whence: int)
  {
    whence == SEEK_SET || whence == SEEK_CUR || whence == SEEK_END
  }

  /** `new_pos` of `seek`: the position asked for, clamped to `[0, size]`. */
  function Clamp(p: int, size: nat): (r: nat)
    ensures r <= size
    ensures 0 <= p <= size ==> r == p
    ensures p > size ==> r == size
    ensures p < 0 ==> r == 0
  {
    if p > size then size else if p < 0 then 0 else p
  }

  class ZipFilePartRO {
    const fileobj: SharedFileRO
    const closeFileobj: bool
    const name: string
    const origCompressStart: nat
    const origCompressSize: nat
    const origFileSize: nat
    /** Stored bytes not yet read from the file, and entry bytes not yet delivered. */
    var compressLeft: int
    var left: int
    var eof: bool
    var readBuffer: seq<byte>
    var offset: int
    var closed: bool

    /** The entry's stored bytes as far as the file holds them. */
    ghost function Stream(): seq<byte>
    {
      ReadAt(fileobj.source.data, origCompressStart, origCompressSize)
    }

    /** What the reader delivers from start to end: the stored bytes, cut at the file size. */
    ghost function Content(): seq<byte>
    {
      Stream()[..Min(origFileSize, |Stream()|)]
    }

    function Consumed(): int
      reads this
    {
      origCompressSize - compressLeft
    }

    function Delivered(): int
      reads this
    {
      origFileSize - left
    }

    /** The position `tell()` reports. */
    function Position(): int
      reads this
    {
      origFileSize - left - |readBuffer| + offset
    }

    /** Bytes consumed from the file and bytes delivered stay in step (a stored entry is
        delivered as read, cut at the file size); the buffer holds the bytes delivered last,
        and the shared handle sits right after the bytes consumed. */
    ghost predicate Valid()
      reads this, fileobj
    {
      && fileobj.Valid()
      && (!closed ==> fileobj.file == fileobj.source)
      && 0 <= compressLeft <= origCompressSize
      && 0 <= left <= origFileSize
      && Consumed() <= |Stream()|
      && Delivered() == Min(Consumed(), origFileSize)
      && Delivered() <= |Content()|
      && fileobj.pos == origCompressStart + Consumed()
      && |readBuffer| <= Delivered()
      && readBuffer == Content()[Delivered() - |readBuffer| .. Delivered()]
      && 0 <= offset <= |readBuffer|
      && (eof ==> compressLeft == 0 || left == 0)
    }

    constructor (fileobj: SharedFileRO, zinfo: ZipInfoRO, closeFileobj: bool)
      requires fileobj.Valid() && fileobj.file == fileobj.source && fileobj.pos >= 0
      ensures Valid() && !closed && this.fileobj == fileobj && this.closeFileobj == closeFileobj
      ensures name == zinfo.filename && origCompressStart == fileobj.pos
      ensures origCompressSize == zinfo.compressSize && origFileSize == zinfo.fileSize
      ensures Position() == 0 && readBuffer == [] && !eof
      ensures Content() == EntryContent(fileobj.source.data, origCompressStart, origCompressSize, origFileSize)
    {
      this.fileobj := fileobj;
      this.closeFileobj := closeFileobj;
      compressLeft := zinfo.compressSize;
      left := zinfo.fileSize;
      eof := false;
      readBuffer := [];
      offset := 0;
      name := zinfo.filename;
      origCompressStart := fileobj.Tell();
      origCompressSize := zinfo.compressSize;
      origFileSize := zinfo.fileSize;
      closed := false;
    }

    /** `tell()`: never negative and never past the file size. */
    function Tell(): (r: Result<int>)
      requires Valid()
      reads this, fileobj
      ensures closed <==> r == Failure(ValueError)
      ensures r.Success? ==> 0 <= r.value <= origFileSize && r.value <= |Content()|
    {
      if closed then Failure(ValueError) else Success(Position())
    }

    /** `_read2`: one read of at least `MIN_READ_SIZE` and at most `_compress_left` bytes;
        nothing once the stored bytes are used up, EOFError if the file ends before them. */
    method Read2(n: int) returns (r: Result<seq<byte>>)
      requires Valid() && !closed
      modifies this`compressLeft, fileobj`pos, fileobj.source`pos
      ensures old(compressLeft) == 0 ==> r == Success([]) && compressLeft == 0 && fileobj.pos == old(fileobj.pos)
      ensures r.Failure? ==> compressLeft == old(compressLeft) && fileobj.pos == old(fileobj.pos)
      ensures r.Failure? ==> (r.error == EOFError && old(Consumed()) == |Stream()| < origCompressSize)
                             || (r.error == ValueError && fileobj.source.closed)
      ensures r.Success? && old(compressLeft) > 0 ==>
                && 0 < |r.value| <= Min(Max(n, MIN_READ_SIZE), old(compressLeft))
                && old(Consumed()) + |r.value| <= |Stream()|
                && r.value == Stream()[old(Consumed()) .. old(Consumed()) + |r.value|]
                && compressLeft == old(compressLeft) - |r.value|
                && fileobj.pos == old(fileobj.pos) + |r.value|
    {
      if compressLeft <= 0 {
        return Success([]);
      }
      var want := Min(Max(n, MIN_READ_SIZE), compressLeft);
      ReadWithin(fileobj.source.data, origCompressStart, origCompressSize, Consumed(), want);
      var data := fileobj.Read(want);
      if data.Failure? {
        return data;
      }
      compressLeft := compressLeft - |data.value|;
      if data.value == [] {
        return Failure(EOFError);
      }
      r := data;
    }

    /** `_read1`: the next bytes of the entry, up to what one `_read2` returns and cut at the
        file size; the reader is at its end once either count runs out. */
    method Read1(n: int) returns (r: Result<seq<byte>>)
      requires Valid() && !closed && readBuffer == []
      modifies this`compressLeft, this`left, this`eof, fileobj`pos, fileobj.source`pos
      ensures Valid()
      ensures old(eof) || n <= 0 ==> r == Success([]) && compressLeft == old(compressLeft) && left == old(left) && eof == old(eof)
      ensures r.Success? ==> old(Delivered()) <= Delivered() && r.value == Content()[old(Delivered()) .. Delivered()]
      ensures r.Success? && !old(eof) && n > 0 ==> compressLeft < old(compressLeft) || (eof && compressLeft == old(compressLeft))
      ensures r.Failure? ==> compressLeft == old(compressLeft) && left == old(left) && eof == old(eof)
      ensures r.Failure? ==> (r.error == EOFError && Consumed() == |Stream()| < origCompressSize)
                             || (r.error == ValueError && fileobj.source.closed)
    {
      if eof || n <= 0 {
        return Success([]);
      }
      ghost var consumed := Consumed();
      var data := Read2(n);
      if data.Failure? {
        return data;
      }
      eof := compressLeft <= 0;
      DeliverChunk(Stream(), origFileSize, consumed, data.value);
      var chunk := data.value[..Min(left, |data.value|)];
      left := left - |chunk|;
      if left <= 0 {
        eof := true;
      }
      r := Success(chunk);
    }

    /** At the end of the entry every byte of it has been delivered. */
    lemma EofDrained()
      requires Valid() && eof
      ensures Delivered() == |Content()|
    {
    }

    /** `read(n)`: the next bytes of the entry from the current position: `n` of them, or
        all that remain when `n` is negative or fewer than `n` remain. */
    method Read(n: int) returns (r: Result<seq<byte>>)
      requires Valid()
      modifies this`compressLeft, this`left, this`eof, this`readBuffer, this`offset, fileobj`pos, fileobj.source`pos
      ensures Valid()
      ensures old(closed) ==> r == Failure(ValueError) && unchanged(this) && unchanged(fileobj)
      ensures r.Success? ==> old(Position()) <= Position() && r.value == Content()[old(Position()) .. Position()]
      ensures r.Success? && n >= 0 ==> |r.value| <= n
      ensures r.Success? && (n < 0 || |r.value| < n) ==> Position() == |Content()|
      ensures r.Failure? && !closed ==> (r.error == EOFError && Consumed() == |Stream()| < origCompressSize)
                                        || (r.error == ValueError && fileobj.source.closed)
    {
      if closed {
        return Failure(ValueError);
      }
      if n < 0 {
        r := ReadRest();
      } else {
        r := ReadUpTo(n);
      }
    }

    /** The `n < 0` branch of `read`: the buffered bytes, then `_read1(MAX_N)` until the end. */
    method ReadRest() returns (r: Result<seq<byte>>)
      requires Valid() && !closed
      modifies this`compressLeft, this`left, this`eof, this`readBuffer, this`offset, fileobj`pos, fileobj.source`pos
      ensures Valid()
      ensures r.Success? ==> old(Position()) <= Position() == |Content()| && r.value == Content()[old(Position()) ..]
      ensures r.Failure? ==> (r.error == EOFError && Consumed() == |Stream()| < origCompressSize)
                             || (r.error == ValueError && fileobj.source.closed)
    {
      ghost var start := Position();
      var buf := TakeBuffered();
      while !eof
        invariant Valid() && !closed && readBuffer == [] && offset == 0
        invariant start <= Position() && buf == Content()[start .. Position()]
        decreases compressLeft + (if eof then 0 else 1)
      {
        ghost var before := Position();
        var data := Read1(MAX_N);
        if data.Failure? {
          return data;
        }
        SliceConcat(Content(), start, before, Position());
        buf := buf + data.value;
      }
      EofDrained();
      r := Success(buf);
    }

    /** The unread part of the buffer, which is then emptied; the position stays. */
    method TakeBuffered() returns (buf: seq<byte>)
      requires Valid() && !closed
      modifies this`readBuffer, this`offset
      ensures Valid() && readBuffer == [] && offset == 0
      ensures Position() == Delivered() == old(Position()) + |buf|
      ensures compressLeft == old(compressLeft) && left == old(left) && eof == old(eof)
      ensures buf == Content()[old(Position()) .. Position()]
    {
      SliceOfSlice(Content(), Delivered() - |readBuffer|, Delivered(), offset, |readBuffer|);
      buf := readBuffer[offset..];
      readBuffer := [];
      offset := 0;
    }

    /** The `n >= 0` branch of `read`: from the buffer if it holds enough, otherwise the
        buffered bytes and then the chunks `_read1` delivers. */
    method ReadUpTo(n: nat) returns (r: Result<seq<byte>>)
      requires Valid() && !closed
      modifies this`compressLeft, this`left, this`eof, this`readBuffer, this`offset, fileobj`pos, fileobj.source`pos
      ensures Valid()
      ensures r.Success? ==> old(Position()) <= Position() && r.value == Content()[old(Position()) .. Position()]
      ensures r.Success? ==> |r.value| <= n
      ensures r.Success? && |r.value| < n ==> Position() == |Content()|
      ensures r.Failure? ==> (r.error == EOFError && Consumed() == |Stream()| < origCompressSize)
                             || (r.error == ValueError && fileobj.source.closed)
    {
      var end := n + offset;
      if end < |readBuffer| {
        SliceOfSlice(Content(), Delivered() - |readBuffer|, Delivered(), offset, end);
        var buf := readBuffer[offset..end];
        offset := end;
        return Success(buf);
      }
      ghost var start := Position();
      var buf := TakeBuffered();
      ghost var middle := Position();
      assert |buf| <= n;
      var more := ReadChunks(n - |buf|);
      if more.Failure? {
        return more;
      }
      SliceConcat(Content(), start, middle, Position());
      r := Success(buf + more.value);
    }

    /** The loop of `read(n)` once the buffer is used up: `_read1` until `wanted` bytes are
        there or the entry ends, keeping any surplus of the last chunk in the buffer. */
    method ReadChunks(wanted: nat) returns (r: Result<seq<byte>>)
      requires Valid() && !closed && readBuffer == [] && offset == 0
      modifies this`compressLeft, this`left, this`eof, this`readBuffer, this`offset, fileobj`pos, fileobj.source`pos
      ensures Valid()
      ensures r.Success? ==> old(Position()) <= Position() && r.value == Content()[old(Position()) .. Position()]
      ensures r.Success? ==> |r.value| <= wanted
      ensures r.Success? && |r.value| < wanted ==> Position() == |Content()|
      ensures r.Failure? ==> (r.error == EOFError && Consumed() == |Stream()| < origCompressSize)
                             || (r.error == ValueError && fileobj.source.closed)
    {
      ghost var start := Position();
      var buf := [];
      var missing := wanted;
      while missing > 0 && !eof
        invariant Valid() && !closed && readBuffer == [] && offset == 0
        invariant start <= Position() && buf == Content()[start .. Position()]
        invariant 0 <= missing && |buf| + missing == wanted
        decreases compressLeft + (if eof then 0 else 1)
      {
        ghost var before := Position();
        var data := ReadStep(missing);
        if data.Failure? {
          return data;
        }
        SliceConcat(Content(), start, before, Position());
        buf := buf + data.value;
        if |data.value| == missing {
          return Success(buf);
        }
        missing := missing - |data.value|;
      }
      if eof {
        EofDrained();
      }
      r := Success(buf);
    }

    /** One pass of the loop of `read(n)`: `_read1(n)`; a chunk longer than the `missing`
        bytes still wanted goes to the buffer, and only `missing` bytes of it are taken. */
    method ReadStep(missing: nat) returns (r: Result<seq<byte>>)
      requires Valid() && !closed && readBuffer == [] && offset == 0 && missing > 0 && !eof
      modifies this`compressLeft, this`left, this`eof, this`readBuffer, this`offset, fileobj`pos, fileobj.source`pos
      ensures Valid()
      ensures r.Success? ==> old(Position()) <= Position() && r.value == Content()[old(Position()) .. Position()]
      ensures r.Success? ==> |r.value| <= missing
      ensures r.Success? && |r.value| < missing ==>
                && readBuffer == [] && offset == 0
                && (compressLeft < old(compressLeft) || (eof && compressLeft == old(compressLeft)))
      ensures r.Failure? ==> (r.error == EOFError && Consumed() == |Stream()| < origCompressSize)
                             || (r.error == ValueError && fileobj.source.closed)
    {
      var data := Read1(missing);
      if data.Failure? {
        return data;
      }
      var chunk := data.value;
      if missing < |chunk| {
        var piece := KeepSurplus(chunk, missing);
        return Success(piece);
      }
      r := data;
    }

    /** The last chunk read goes to the buffer, of which the first `used` bytes count as read
        and are returned. */
    method KeepSurplus(chunk: seq<byte>, used: nat) returns (piece: seq<byte>)
      requires Valid() && !closed && readBuffer == [] && offset == 0
      requires used < |chunk| <= Delivered() && chunk == Content()[Delivered() - |chunk| .. Delivered()]
      modifies this`readBuffer, this`offset
      ensures Valid() && readBuffer == chunk && offset == used
      ensures compressLeft == old(compressLeft) && left == old(left) && eof == old(eof)
      ensures Position() == old(Position()) - |chunk| + used
      ensures piece == Content()[old(Position()) - |chunk| .. Position()]
    {
      SliceOfSlice(Content(), Delivered() - |chunk|, Delivered(), 0, used);
      readBuffer := chunk;
      offset := used;
      piece := chunk[..used];
    }

    /** `peek(n)`: the bytes at the current position, at most 512 of them, without moving it;
        when the buffer holds fewer than `n` unread bytes, `read(n)` is called and what it
        returned is put back in front of the buffer. */
    method Peek(n: int) returns (r: Result<seq<byte>>)
      requires Valid()
      modifies this`compressLeft, this`left, this`eof, this`readBuffer, this`offset, fileobj`pos, fileobj.source`pos
      ensures Valid()
      ensures r.Success? ==> Position() == old(Position())
      ensures r.Success? ==> |r.value| <= 512 && Position() + |r.value| <= |Content()|
                             && r.value == Content()[Position() .. Position() + |r.value|]
      ensures r.Success? ==> |r.value| >= Min(Min(n, 512), |Content()| - Position())
      ensures old(closed) && n > |old(readBuffer)| - old(offset) ==> r == Failure(ValueError) && unchanged(this)
      ensures r.Failure? && !closed ==> (r.error == EOFError && Consumed() == |Stream()| < origCompressSize)
                                        || (r.error == ValueError && fileobj.source.closed)
    {
      if n > |readBuffer| - offset {
        var filled := Refill(n);
        if filled.Failure? {
          return Failure(filled.error);
        }
      }
      PeekLength(n, Delivered() - Position(), |Content()| - Position());
      r := Success(Lookahead());
    }

    /** The first half of `peek`: `read(n)`, with what it returned put back in front. */
    method Refill(n: int) returns (r: Result<()>)
      requires Valid()
      modifies this`compressLeft, this`left, this`eof, this`readBuffer, this`offset, fileobj`pos, fileobj.source`pos
      ensures Valid()
      ensures r.Success? ==> Position() == old(Position()) && Delivered() - Position() >= Min(n, |Content()| - Position())
      ensures old(closed) ==> r == Failure(ValueError) && unchanged(this)
      ensures r.Failure? && !closed ==> (r.error == EOFError && Consumed() == |Stream()| < origCompressSize)
                                        || (r.error == ValueError && fileobj.source.closed)
    {
      var chunk := Read(n);
      if chunk.Failure? {
        return Failure(chunk.error);
      }
      Unread(chunk.value);
      r := Success(());
    }

    /** The value `peek` returns: the unread part of the buffer, at most 512 bytes of it. */
    function Lookahead(): (r: seq<byte>)
      requires Valid()
      reads this, fileobj
      ensures |r| == Min(512, Delivered() - Position())
      ensures Position() + |r| <= |Content()| && r == Content()[Position() .. Position() + |r|]
    {
      SliceOfSlice(Content(), Delivered() - |readBuffer|, Delivered(), offset, Min(offset + 512, |readBuffer|));
      readBuffer[offset .. Min(offset + 512, |readBuffer|)]
    }

    /** The second half of `peek`: the bytes `read` just returned go back in front of the
        unread part of the buffer, or the buffer offset moves back over them. */
    method Unread(chunk: seq<byte>)
      requires Valid() && |chunk| <= Position() && chunk == Content()[Position() - |chunk| .. Position()]
      modifies this`readBuffer, this`offset
      ensures Valid() && compressLeft == old(compressLeft) && left == old(left) && eof == old(eof)
      ensures Position() == old(Position()) - |chunk| && Delivered() == old(Delivered())
    {
      ghost var before := Position() - |chunk|;
      if |chunk| > offset {
        SliceOfSlice(Content(), Delivered() - |readBuffer|, Delivered(), offset, |readBuffer|);
        SliceConcat(Content(), before, Position(), Delivered());
        readBuffer := chunk + readBuffer[offset..];
        offset := 0;
      } else {
        offset := offset - |chunk|;
      }
    }

    /** `seek(offset, whence)` as written: a target inside the buffer only moves the buffer
        offset; anywhere else the next branch tests `self._compress_type`, an attribute the
        constructor never sets, and AttributeError is raised. */
    method Seek(delta: int, whence: int) returns (r: Result<int>)
      requires Valid()
      modifies this`offset
      ensures Valid()
      ensures closed ==> r == Failure(ValueError) && offset == old(offset)
      ensures !closed && !IsWhence(whence) ==> r == Failure(ValueError) && offset == old(offset)
      ensures !closed && IsWhence(whence) ==>
                var target := Clamp(SeekTarget(origFileSize, old(Position()), delta, whence), origFileSize);
                if 0 <= target - old(Position()) + old(offset) < |readBuffer|
                then r == Success(target) && Position() == target
                else r == Failure(AttributeError) && offset == old(offset)
      ensures !closed && IsWhence(whence) && readBuffer == [] ==> r == Failure(AttributeError)
    {
      if closed {
        return Failure(ValueError);
      }
      if !IsWhence(whence) {
        return Failure(ValueError);
      }
      var current := Position();
      var target := Clamp(SeekTarget(origFileSize, current, delta, whence), origFileSize);
      var readOffset := target - current;
      var buffOffset := readOffset + offset;
      if 0 <= buffOffset < |readBuffer| {
        offset := buffOffset;
        return Success(Position());
      }
      r := Failure(AttributeError);
    }

    /** `seek(0)` as written, on a reader that has nothing buffered. */
    method SeekToStart() returns (r: Result<int>)
      requires Valid() && !closed && readBuffer == []
      modifies this`offset
      ensures r == Failure(AttributeError)
    {
      r := Seek(0, SEEK_SET);
    }

    /** `seek` as evidently intended: inside the buffer the offset moves; a target behind the
        position restarts the entry from its first stored byte; the rest is read and dropped
        in runs of `MAX_SEEK_READ`. The position reached is the target, or the end of the
        entry if that comes first. */
    method SeekIntended(delta: int, whence: int) returns (r: Result<int>)
      requires Valid()
      modifies this`compressLeft, this`left, this`eof, this`readBuffer, this`offset, fileobj`pos, fileobj.source`pos
      ensures Valid()
      ensures old(closed) ==> r == Failure(ValueError) && unchanged(this)
      ensures !old(closed) && !IsWhence(whence) ==> r == Failure(ValueError) && unchanged(this)
      ensures !old(closed) && IsWhence(whence) && r.Success? ==>
                var target := Clamp(SeekTarget(origFileSize, old(Position()), delta, whence), origFileSize);
                r.value == Position() == Min(target, |Content()|)
      ensures !old(closed) && r.Failure? && IsWhence(whence) ==>
                (r.error == EOFError && Consumed() == |Stream()| < origCompressSize)
                || (r.error == ValueError && fileobj.source.closed)
      ensures !old(closed) && IsWhence(whence) && !fileobj.source.closed && |Stream()| == origCompressSize ==> r.Success?
      ensures !old(closed) && IsWhence(whence)
              && Clamp(SeekTarget(origFileSize, old(Position()), delta, whence), origFileSize) == old(Position()) ==>
                r == Success(old(Position())) && Position() == old(Position())
    {
      if closed {
        return Failure(ValueError);
      }
      if !IsWhence(whence) {
        return Failure(ValueError);
      }
      var current := Position();
      var target := Clamp(SeekTarget(origFileSize, current, delta, whence), origFileSize);
      var readOffset := target - current;
      var buffOffset := readOffset + offset;
      if 0 <= buffOffset < |readBuffer| {
        offset := buffOffset;
        return Success(Position());
      }
      r := Reposition(target);
    }

    /** The part of `seek` past the buffer: a target behind the position restarts the entry,
        then the bytes up to the target are read and dropped. */
    method Reposition(target: nat) returns (r: Result<int>)
      requires Valid() && !closed
      modifies this`compressLeft, this`left, this`eof, this`readBuffer, this`offset, fileobj`pos, fileobj.source`pos
      ensures Valid()
      ensures r.Success? ==> r.value == Position() == Min(target, |Content()|)
      ensures r.Failure? ==> (r.error == EOFError && Consumed() == |Stream()| < origCompressSize)
                             || (r.error == ValueError && fileobj.source.closed)
      ensures !fileobj.source.closed && |Stream()| == origCompressSize ==> r.Success?
      ensures target == old(Position()) ==> r == Success(old(Position())) && unchanged(this)
    {
      var readOffset := target - Position();
      if readOffset < 0 {
        var back := Rewind();
        if back.Failure? {
          return Failure(back.error);
        }
        readOffset := target;
      }
      r := Skip(readOffset);
    }

    /** The restart branch of `seek`: the shared handle goes back to the first stored byte
        and the counts, the buffer and the end flag are reset. */
    method Rewind() returns (r: Result<()>)
      requires Valid() && !closed
      modifies this`compressLeft, this`left, this`eof, this`readBuffer, this`offset, fileobj`pos, fileobj.source`pos
      ensures Valid()
      ensures r.Failure? ==> r.error == ValueError && fileobj.source.closed && unchanged(this)
      ensures r.Success? ==> Position() == 0 && readBuffer == [] && !eof
    {
      var back := fileobj.Seek(origCompressStart, SEEK_SET);
      if back.Failure? {
        return Failure(back.error);
      }
      compressLeft := origCompressSize;
      left := origFileSize;
      readBuffer := [];
      offset := 0;
      eof := false;
      r := Success(());
    }

    /** The loop that ends `seek`: `count` bytes are read and dropped, at most
        `MAX_SEEK_READ` at a time; then `tell()`. */
    method Skip(count: int) returns (r: Result<int>)
      requires Valid() && !closed
      modifies this`compressLeft, this`left, this`eof, this`readBuffer, this`offset, fileobj`pos, fileobj.source`pos
      ensures Valid()
      ensures r.Success? ==> r.value == Position() == Min(old(Position()) + Max(count, 0), |Content()|)
      ensures r.Failure? ==> (r.error == EOFError && Consumed() == |Stream()| < origCompressSize)
                             || (r.error == ValueError && fileobj.source.closed)
      ensures !fileobj.source.closed && |Stream()| == origCompressSize ==> r.Success?
      ensures count <= 0 ==> r == Success(old(Position())) && unchanged(this)
    {
      ghost var start := Position();
      var remaining := Max(count, 0);
      while remaining > 0
        invariant Valid() && !closed && 0 <= remaining <= Max(count, 0)
        invariant Position() == Min(start + Max(count, 0) - remaining, |Content()|)
        invariant count <= 0 ==> unchanged(this)
      {
        var len := Min(MAX_SEEK_READ, remaining);
        var data := Read(len);
        if data.Failure? {
          return Failure(data.error);
        }
        remaining := remaining - len;
      }
      r := Success(Position());
    }

    /** `close()`: the shared handle is closed first when the reader owns it; the reader is
        closed either way. */
    method Close()
      requires Valid() && fileobj.owner.Valid() && fileobj.source == fileobj.owner.source
      requires fileobj.file != null ==> fileobj in fileobj.owner.handles
      modifies this`closed, fileobj`file, fileobj.owner`refCount, fileobj.owner`handles,
               fileobj.owner.source`closed, fileobj.owner.source`closeCalls
      ensures Valid() && closed && fileobj.owner.Valid()
      ensures closeFileobj && old(fileobj.file) != null ==>
                fileobj.owner.refCount == old(fileobj.owner.refCount) - 1
                && fileobj.owner.handles == old(fileobj.owner.handles) - {fileobj}
      ensures !closeFileobj || old(fileobj.file) == null ==>
                fileobj.owner.refCount == old(fileobj.owner.refCount)
                && fileobj.owner.handles == old(fileobj.owner.handles) && unchanged(fileobj.owner.source)
    {
      if closeFileobj {
        fileobj.Close();
      }
      closed := true;
    }
  }

  /** A reader fresh from `open()` has an empty buffer, so `seek` as written raises
      AttributeError for every valid whence, `seek(0)` included. */
  method SeekAfterOpen(archive: ZipFileRO, member: Member) returns (result: Result<ZipFilePartRO>, sought: Result<int>)
    requires archive.Valid()
    modifies archive`refCount, archive`handles, archive.source`pos, archive.source`closed, archive.source`closeCalls
    ensures result.Success? ==> sought == Failure(AttributeError)
  {
    result := archive.Open(member);
    if result.Failure? {
      return result, Failure(result.error);
    }
    sought := result.value.SeekToStart();
  }

  /** With `seek` as intended, `seek(0)` on a reader fresh from `open()` stays at the start
      and reports 0. */
  method SeekIntendedAfterOpen(archive: ZipFileRO, member: Member) returns (result: Result<ZipFilePartRO>, sought: Result<int>)
    requires archive.Valid()
    modifies archive`refCount, archive`handles, archive.source`pos, archive.source`closed, archive.source`closeCalls
    ensures result.Success? ==> sought == Success(0)
  {
    result := archive.Open(member);
    if result.Failure? {
      return result, Failure(result.error);
    }
    sought := result.value.SeekIntended(0, SEEK_SET);
  }

  /** The local header checks of `open()`, through the new shared handle: read the fixed
      header and the name, skip the extra field, refuse what cannot be read, and leave the
      handle on the first stored byte. */
  method CheckLocalHeader(shared: SharedFileRO, zinfo: ZipInfoRO, decode: NameDecoder) returns (r: Result<nat>)
    requires shared.Valid() && shared.file == shared.source && shared.pos == zinfo.headerOffset
    modifies shared`pos, shared.source`pos
    ensures shared.Valid()
    ensures r == if shared.source.closed then Failure(ValueError)
                 else LocalHeaderCheck(shared.source.data, zinfo, decode)
    ensures r.Success? ==> shared.pos == r.value
  {
    var raw := shared.Read(FILE_HEADER_SIZE);
    if raw.Failure? {
      return Failure(raw.error);
    }
    if |raw.value| != FILE_HEADER_SIZE {
      return Failure(BadZipFile(TruncatedFileHeader));
    }
    var fheader := DecodeFileHeader(raw.value);
    if fheader.signature != FILE_HEADER_STRING {
      return Failure(BadZipFile(BadFileHeaderMagic));
    }
    var fname := shared.Read(fheader.filenameLength);
    if fheader.extraLength != 0 {
      var _ := shared.Seek(fheader.extraLength, SEEK_CUR);
    }
    if FlagSet(zinfo.flagBits, COMPRESSED_PATCH_BIT) {
      return Failure(NotImplemented(CompressedPatch));
    }
    if FlagSet(zinfo.flagBits, STRONG_ENCRYPTION_BIT) {
      return Failure(NotImplemented(StrongEncryption));
    }
    var name := decode(fname.value, FlagSet(fheader.flagBits, UTF_FILENAME_BIT));
    if name.None? {
      return Failure(UnicodeDecodeError);
    }
    if name.value != zinfo.filename {
      return Failure(BadZipFile(NameMismatch));
    }
    if FlagSet(zinfo.flagBits, ENCRYPTED_BIT) {
      return Failure(NotImplemented(Encrypted));
    }
    r := Success(shared.pos);
  }

  lemma SliceOfSlice(s: seq<byte>, a: int, b: int, i: int, j: int)
    requires 0 <= a <= b <= |s| && 0 <= i <= j <= b - a
    ensures s[a..b][i..j] == s[a + i .. a + j]
  {
    assert |s[a..b][i..j]| == j - i;
    forall k | 0 <= k < j - i
      ensures s[a..b][i..j][k] == s[a + i .. a + j][k]
    {
    }
  }

  /** The first `k` bytes from `a` of what a reader delivers are the stored bytes there, when
      they lie before the file size and inside the stored bytes. */
  lemma ContentSlice(stream: seq<byte>, size: nat, a: nat, k: nat)
    requires a + k <= |stream| && a + k <= size
    ensures a + k <= |stream[..Min(size, |stream|)]|
    ensures stream[..Min(size, |stream|)][a .. a + k] == stream[a .. a + k]
  {
  }

  /** The first `keep` bytes of a run read at `consumed` from the stored bytes are what the
      reader delivers from `consumed` on, when they lie before the file size. */
  lemma ChunkOfContent(stream: seq<byte>, size: nat, consumed: nat, data: seq<byte>, keep: nat)
    requires consumed + |data| <= |stream| && data == stream[consumed .. consumed + |data|]
    requires keep <= |data| && consumed + keep <= size
    ensures consumed + keep <= |stream[..Min(size, |stream|)]|
    ensures data[..keep] == stream[..Min(size, |stream|)][consumed .. consumed + keep]
  {
    ContentSlice(stream, size, consumed, keep);
    SliceOfSlice(stream, consumed, consumed + |data|, 0, keep);
  }

  /** A run of stored bytes read after `consumed` of them delivers the part of it that is
      still inside the file size: the entry's bytes from the delivered count on, and the
      delivered count again keeps in step with the consumed one. */
  lemma DeliverChunk(stream: seq<byte>, size: nat, consumed: nat, data: seq<byte>)
    requires consumed + |data| <= |stream| && data == stream[consumed .. consumed + |data|]
    ensures var delivered := Min(consumed, size);
            var keep := Min(size - delivered, |data|);
            && delivered + keep == Min(consumed + |data|, size)
            && delivered + keep <= |stream[..Min(size, |stream|)]|
            && data[..keep] == stream[..Min(size, |stream|)][delivered .. delivered + keep]
  {
    if consumed < size {
      ChunkOfContent(stream, size, consumed, data, Min(size - consumed, |data|));
    }
  }

  /** With `avail` bytes buffered, at least `n` of the `rest` still to come or all of them,
      `peek` returns as many as asked for, up to 512, unless the entry ends first. */
  lemma PeekLength(n: int, avail: int, rest: int)
    requires avail >= Min(n, rest)
    ensures Min(512, avail) >= Min(Min(n, 512), rest)
  {
  }

  lemma SliceConcat(s: seq<byte>, a: int, b: int, c: int)
    requires 0 <= a <= b <= c <= |s|
    ensures s[a..b] + s[b..c] == s[a..c]
  {
  }

  /** A read of `len` bytes `k` bytes into a run of `c` bytes at `s` returns the run's next
      bytes; it returns nothing only where the file ends inside the run. */
  lemma ReadWithin(data: seq<byte>, s: nat, c: nat, k: nat, len: nat)
    requires k <= |ReadAt(data, s, c)| && k + len <= c
    ensures var chunk := ReadAt(data, s + k, len);
            && k + |chunk| <= |ReadAt(data, s, c)|
            && chunk == ReadAt(data, s, c)[k .. k + |chunk|]
            && (len > 0 && chunk == [] ==> k == |ReadAt(data, s, c)| < c)
  {
    var run := ReadAt(data, s, c);
    var chunk := ReadAt(data, s + k, len);
    if s < |data| {
      assert k + |chunk| <= |run|;
      SliceOfSlice(data, s, s + |run|, k, k + |chunk|);
    }
  }

  /** One pass of the directory loop of `_read_contents`: read a 46-byte header at the
      cursor, then the name, extra field and comment it announces, and build the entry's
      info. It fails exactly as the walk's parser does on the bytes that remained. */
  method ReadEntry(cd: seq<byte>, cursor: nat, concat: int, decode: NameDecoder, ghost total: nat,
                   ghost parse: seq<byte> -> Result<Parsed>)
    returns (r: Result<Parsed>, next: nat)
    requires forall rest {:trigger ParseEntry(rest, concat, decode)} :: parse(rest) == ParseEntry(rest, concat, decode)
    requires cursor == Min(total, |cd|)
    ensures r == parse(Remaining(cd, total))
    ensures r.Success? ==> next == Min(total + r.value.size, |cd|)
  {
    ghost var rest := Remaining(cd, total);
    assert parse(rest) == ParseEntry(rest, concat, decode);
    ReadAtRemaining(cd, total, cursor, 0, CENTRAL_DIR_SIZE);
    var cdir;
    cdir, next := ReadCursor(cd, cursor, CENTRAL_DIR_SIZE);
    if |cdir| != CENTRAL_DIR_SIZE {
      return Failure(BadZipFile(TruncatedDirectory)), next;
    }
    assert cdir == rest[..CENTRAL_DIR_SIZE];
    var header := DecodeCentralDir(cdir);
    ReadAtRemaining(cd, total, cursor, CENTRAL_DIR_SIZE, header.filenameLength);
    r, next := ReadRecord(cd, next, header, concat, decode, rest);
  }

  /** The rest of one pass of the directory loop once the fixed part of the record is
      decoded: check its magic, read the name, extra field and comment, build the info. */
  method ReadRecord(cd: seq<byte>, cursor: nat, header: CentralDirHeader, concat: int, decode: NameDecoder,
                    ghost rest: seq<byte>)
    returns (r: Result<Parsed>, next: nat)
    requires cursor <= |cd|
    requires ReadAt(cd, cursor, header.filenameLength) == ReadAt(rest, CENTRAL_DIR_SIZE, header.filenameLength)
    ensures r == ParseFixed(header, rest, concat, decode)
    ensures r.Success? ==> next == Min(cursor + header.filenameLength + header.extraLength + header.commentLength, |cd|)
  {
    next := cursor;
    if header.signature != CENTRAL_DIR_STRING {
      return Failure(BadZipFile(BadDirectoryMagic)), next;
    }
    var filename, extra, comment;
    filename, next := ReadCursor(cd, next, header.filenameLength);
    var decoded := decode(filename, FlagSet(header.flagBits, UTF_FILENAME_BIT));
    if decoded.None? {
      return Failure(UnicodeDecodeError), next;
    }
    extra, next := ReadCursor(cd, next, header.extraLength);
    comment, next := ReadCursor(cd, next, header.commentLength);
    if header.compressType != ZIP_STORED {
      return Failure(AssertionError), next;
    }
    var zinfo := ZipInfoRO(decoded.value, header.flagBits, header.localHeaderOffset + concat,
                           header.compressSize, header.fileSize);
    var size := CENTRAL_DIR_SIZE + header.filenameLength + header.extraLength + header.commentLength;
    r := Success(Parsed(zinfo, size));
  }

  /** `read(n)` on a `BytesIO` over `buf` whose cursor is at `cursor`: the bytes read, and
      the cursor after them, which never passes the end. */
  method ReadCursor(buf: seq<byte>, cursor: nat, n: nat) returns (chunk: seq<byte>, next: nat)
    requires cursor <= |buf|
    ensures chunk == ReadAt(buf, cursor, n)
    ensures next == Min(cursor + n, |buf|) == cursor + |chunk|
  {
    chunk := ReadAt(buf, cursor, n);
    next := cursor + |chunk|;
  }

  /** A read `p` bytes past the cursor of a `BytesIO` over `cd`, advanced to
      `Min(total, |cd|)`, sees what lies `p` bytes into the bytes that remained at `total`. */
  lemma ReadAtRemaining(cd: seq<byte>, total: nat, cursor: nat, p: nat, n: nat)
    requires cursor == Min(total, |cd|)
    ensures ReadAt(cd, cursor + p, n) == ReadAt(Remaining(cd, total), p, n)
  {
    var rest := Remaining(cd, total);
    assert rest == cd[cursor..];
    var from := if p < |rest| then p else |rest|;
    var to := if from + n > |rest| then |rest| else from + n;
    assert ReadAt(rest, p, n) == rest[from..to];
    assert ReadAt(cd, cursor + p, n) == cd[cursor + from .. cursor + to];
    assert rest[from..to] == cd[cursor + from .. cursor + to];
  }
}
