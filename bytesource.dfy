/** The randomly seekable byte source the archive is read from: a regular file opened in
    binary mode. Its contents do not change while it is read; its position and open/closed
    state do. */
module ByteSource {
  import opened ByteCodec
  import opened Wrappers

  const SEEK_SET: int := 0
  const SEEK_CUR: int := 1
  const SEEK_END: int := 2

  /** What `read(n)` returns at position `pos` of a file holding `data`: the bytes from `pos`
      on, at most `n` of them unless `n` is negative; nothing at or past the end. */
  function ReadAt(data: seq<byte>, pos: nat, n: int): (r: seq<byte>)
    ensures pos <= |data| ==> pos + |r| <= |data| && r == data[pos .. pos + |r|]
    ensures pos >= |data| ==> r == []
    ensures n >= 0 ==> |r| <= n
    ensures n < 0 || pos + n >= |data| ==> pos + |r| >= |data|
    ensures n >= 0 && pos + n < |data| ==> |r| == n
  {
    var from := if pos < |data| then pos else |data|;
    var to := if n < 0 || from + n > |data| then |data| else from + n;
    data[from..to]
  }

  /** The position `seek(offset, whence)` asks for, before it is checked. */
  function SeekTarget(size: nat, pos: nat, offset: int, whence: int): int
    requires whence == SEEK_SET || whence == SEEK_CUR || whence == SEEK_END
  {
    if whence == SEEK_SET then offset else if whence == SEEK_CUR then pos + offset else size + offset
  }

  class OsFile {
    const data: seq<byte>
    var pos: nat
    var closed: bool
    /** How many times `close()` was called. */
    ghost var closeCalls: nat

    constructor (contents: seq<byte>)
      ensures data == contents && pos == 0 && !closed && closeCalls == 0
    {
      data := contents;
      pos := 0;
      closed := false;
      closeCalls := 0;
    }

    /** `seek`: a negative resulting position raises OSError and leaves the position alone;
        a position past the end is allowed. */
    method Seek(offset: int, whence: int) returns (r: Result<nat>)
      modifies this`pos
      ensures closed ==> r == Failure(ValueError) && pos == old(pos)
      ensures !closed && whence != SEEK_SET && whence != SEEK_CUR && whence != SEEK_END ==>
                r == Failure(ValueError) && pos == old(pos)
      ensures !closed && (whence == SEEK_SET || whence == SEEK_CUR || whence == SEEK_END) ==>
                var target := SeekTarget(|data|, old(pos), offset, whence);
                if target < 0 then r == Failure(OSError) && pos == old(pos)
                else r == Success(target) && pos == target
    {
      if closed {
        return Failure(ValueError);
      }
      if whence != SEEK_SET && whence != SEEK_CUR && whence != SEEK_END {
        return Failure(ValueError);
      }
      var target := SeekTarget(|data|, pos, offset, whence);
      if target < 0 {
        return Failure(OSError);
      }
      pos := target;
      r := Success(target);
    }

    method Tell() returns (r: Result<nat>)
      ensures r == if closed then Failure(ValueError) else Success(pos)
    {
      if closed {
        return Failure(ValueError);
      }
      return Success(pos);
    }

    /** `read(n)`: the bytes `ReadAt` describes; the position moves past them. */
    method Read(n: int) returns (r: Result<seq<byte>>)
      modifies this`pos
      ensures closed ==> r == Failure(ValueError) && pos == old(pos)
      ensures !closed ==> r == Success(ReadAt(data, old(pos), n)) && pos == old(pos) + |r.value|
    {
      if closed {
        return Failure(ValueError);
      }
      var chunk := ReadAt(data, pos, n);
      pos := pos + |chunk|;
      r := Success(chunk);
    }

    /** `close()` may be called again; every call is counted. */
    method Close()
      modifies this`closed, this`closeCalls
      ensures closed && closeCalls == old(closeCalls) + 1
    {
      closed := true;
      closeCalls := closeCalls + 1;
    }
  }
}
