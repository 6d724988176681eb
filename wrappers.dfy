/** Option and Result wrappers, and the exceptions the ZIP reader can raise. */
module Wrappers {

  datatype Option<+T> = None | Some(value: T)

  /** Why an archive was refused as a `BadZipFile`. */
  datatype BadZipReason =
    | NotAZipFile          // no end-of-central-directory record, or OSError while locating it
    | MultiDisk            // ZIP64 locator names another disk or more than one disk
    | BadDirectoryOffset   // the central directory would start before the file
    | TruncatedDirectory   // fewer than 46 bytes left for a central-directory header
    | BadDirectoryMagic    // central-directory header without `PK\x01\x02`
    | TruncatedFileHeader  // fewer than 30 bytes at the local header offset
    | BadFileHeaderMagic   // local header without `PK\x03\x04`
    | NameMismatch         // local header name differs from the directory's

  /** Features `open` refuses with `NotImplementedError`. */
  datatype Unsupported = CompressedPatch | StrongEncryption | Encrypted

  /** The Python exceptions raised by the modelled code. */
  datatype Error =
    | BadZipFile(reason: BadZipReason)
    | OSError                          // seek to a negative position of the byte source
    | ValueError                       // closed file or archive, bad `whence`
    | KeyError                         // no entry of that name
    | NotImplemented(feature: Unsupported)
    | AssertionError                   // a failed `assert` of the source
    | AttributeError                   // attribute never assigned, or a released handle used
    | EOFError                         // the byte source ended inside an entry
    | UnicodeDecodeError               // an entry name the decoder rejects

  datatype Result<+T> = Success(value: T) | Failure(error: Error) {
    predicate IsFailure() { Failure? }

    function PropagateFailure<U>(): Result<U>
      requires Failure?
    {
      Failure(error)
    }

    function Extract(): T
      requires Success?
    {
      value
    }
  }
}
