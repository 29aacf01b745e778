/** Failure-compatible results for the file system model.

    The C++ code reports every error by throwing (a std::runtime_error, or a
    bare C string in the file-system lifecycle checks).  The model returns a
    `Result` instead, naming the failure with a `Fault`.  Where the source
    mutates state before it throws, and the mutation survives the exception,
    the model returns a `Partial`, which carries the state in both cases. */
module Wrappers {

  /** Why an operation failed.  One constructor per distinct throw site
      family in the source. */
  datatype Fault =
    | ValueOutOfRange        // LittleEndian setters, Sector::set8, start cluster, FAT entry > INT_MAX
    | BufferOverrun          // ByteBuffer get/put of a vector, invalid limit
    | DevicePastEnd          // block device access beyond its size
    | MissingSignature       // boot sector without 0x55 0xAA
    | SuspiciousClusterSize  // sectors per cluster byte is 0
    | InvalidGeometry        // boot sector setter or FAT geometry rejected
    | TooManyClusters        // FAT16 cluster limit, or a chain size beyond INT_MAX
    | InvalidCluster         // Fat::testCluster
    | ClusterIsFree          // a chain may not start at a free cluster
    | FatFull
    | NoFats                 // no FAT copy, or a FAT number beyond the count
    | NoDataClusters
    | FatTooSmall            // fewer FAT entries than clusters
    | FatDiffers
    | NegativeCount
    | EmptyChain             // reading an unallocated cluster chain
    | CorruptChain           // a FAT chain that loops or leaves the table
    | DirectoryFull
    | DirectoryTooLarge
    | TooManyEntries
    | LabelOutsideRoot
    | LabelTooLong
    | NotRoot
    | IsADirectory
    | NotADirectory
    | LengthBeyondChain
    | EndOfFile
    | NameTooLong
    | BadNameLength
    | IllegalCharacter
    | NotAVolumeLabel
    | NameInUse
    | NotValid               // AbstractFsObject::checkValid
    | ReadOnlyObject         // AbstractFsObject::checkWritable
    | FileSystemClosed       // AbstractFileSystem::checkClosed
    | ReadOnlyFileSystem     // AbstractFileSystem::checkReadOnly
    | FormatterArgument      // SuperFloppyFormatter argument checks
    | AssertionFailed        // a failed `assert`, which ends a debug build

  /** The outcome of an operation that either succeeds with a value or
      throws before changing anything the caller can observe. */
  datatype Result<+T> = Ok(value: T) | Err(fault: Fault) {

    predicate IsFailure() {
      Err?
    }

    function PropagateFailure<U>(): (r: Result<U>)
      requires Err?
      ensures r.Err? && r.fault == fault
    {
      Err(fault)
    }

    function Extract(): T
      requires Ok?
    {
      value
    }
  }

  /** The outcome of an operation that may throw after it has already
      changed state: both alternatives carry the state as it is left. */
  datatype Partial<+S, +T> = Done(state: S, value: T) | Aborted(state: S, fault: Fault)

  /** A value that may be absent: an empty `shared_ptr`, or
      `std::string::npos` for a search that finds nothing. */
  datatype Option<+T> = None | Some(value: T)

  /** Fails with `f` unless `cond` holds. */
  function Need(cond: bool, f: Fault): (r: Result<()>)
    ensures r.Ok? <==> cond
    ensures r.Err? ==> r.fault == f
  {
    if cond then Ok(()) else Err(f)
  }
}
