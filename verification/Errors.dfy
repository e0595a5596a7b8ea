/** Errors of the crate, and the results that carry them. */
module Errors {
  import opened Bytes

  datatype Error =
    | ShortFile
    | BadMagic(magic: u32)
    | BadVersion(version: u32)
    | BadPageSize(psize: u32)
    | UnalignedFileLength(len: nat, psize: u32)
    | UnsupportedFlags(flags: u32)
    | PageOutOfBounds(pgno: u32)
    | CorruptPage(pgno: u32)
    | CorruptOverflow(pgno: u32)
    | EntryTooLarge(keyLen: nat, valLen: nat)

  datatype Result<+T> = Success(value: T) | Failure(error: Error) {
    predicate IsFailure() {
      Failure?
    }

    function PropagateFailure<U>(): Result<U>
      requires Failure?
    {
      Failure(error)
    }

    function Extract(): T
      requires Success?
    {
      value
    }
  }
}
