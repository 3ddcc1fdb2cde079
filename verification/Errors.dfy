/** How an operation ends: the source's exceptions, its error codes, and accesses
    outside the mapped image. */
module Errors {
  /** Exceptions the source throws, plus OutOfBounds for a memory access outside the
      image, which the source does not check and C++ leaves undefined, and Endless for not
      ending at all. */
  datatype Failure =
    | InvalidBlockNumber
    | InvalidTrackNumber
    | InvalidSectorNumber
    | InvalidIndex
    | UnexpectedStorageType
    | NotADirectoryKeyBlock
    | NoMoreDirectoryBlocks
    | SizeNotMultipleOfBlock
    | NoVolumeDirectory
    | UnexpectedMinVersion
    | UnexpectedEntriesPerBlock
    | UnexpectedEntryLength
    | UnexpectedTotalBlocks
    | OnlySeekSet
    | OutOfBounds
    | Endless

  datatype Outcome<+T> = Ok(value: T) | Threw(failure: Failure)

  /** The ProDOS error codes that this code reports. */
  datatype ProdosError =
    | ErrNone
    | ErrDirectoryNotFound
    | ErrFileNotFound
    | ErrUnsupportedStorageType
    | ErrEndOfFile
    | ErrPositionOutOfRange

  /** The thread-local variable `error`. */
  class ThreadError {
    var code: ProdosError

    constructor ()
      ensures code == ErrNone
    {
      code := ErrNone;
    }
  }
}
