/** The lifecycle flags every file, directory and directory entry carries
    (`valid` and `readOnly`), and the checks built on them. */
module FsObject {
  import opened Wrappers

  datatype Flags = Flags(valid: bool, readOnly: bool)

  /** A new object is valid; `readOnly` is fixed here, and no operation
      changes it afterwards. */
  function Create(readOnly: bool): (o: Flags)
    ensures o.valid && o.readOnly == readOnly
    ensures CheckValid(o).Ok?
  {
    Flags(true, readOnly)
  }

  /** `invalidate`: validity is lost and there is no operation that
      restores it. */
  function Invalidate(o: Flags): (r: Flags)
    ensures !r.valid && r.readOnly == o.readOnly
    ensures CheckValid(r) == Err(NotValid) && CheckWritable(r) == Err(NotValid)
  {
    o.(valid := false)
  }

  /** `checkValid`: fails exactly for an invalidated object. */
  function CheckValid(o: Flags): (r: Result<()>)
    ensures r.Ok? <==> o.valid
    ensures r.Err? ==> r.fault == NotValid
  {
    if o.valid then Ok(()) else Err(NotValid)
  }

  /** `checkWritable`: validity is checked first, then the read-only flag. */
  function CheckWritable(o: Flags): (r: Result<()>)
    ensures r.Ok? <==> CheckValid(o).Ok? && !o.readOnly
    ensures !o.valid ==> r == CheckValid(o)
    ensures o.valid && o.readOnly ==> r == Err(ReadOnlyObject)
  {
    if !o.valid then Err(NotValid)
    else if o.readOnly then Err(ReadOnlyObject)
    else Ok(())
  }

  /** The lifecycle of a file system: fixed read-only flag and a closed
      flag. */
  datatype Lifecycle = Lifecycle(readOnly: bool, closed: bool)

  /** A new file system is open. */
  function Open(readOnly: bool): (s: Lifecycle)
    ensures !s.closed && s.readOnly == readOnly
    ensures CheckClosed(s).Ok?
  {
    Lifecycle(readOnly, false)
  }

  /** `checkClosed`: fails once the file system has been closed. */
  function CheckClosed(s: Lifecycle): (r: Result<()>)
    ensures r.Ok? <==> !s.closed
    ensures r.Err? ==> r.fault == FileSystemClosed
  {
    if s.closed then Err(FileSystemClosed) else Ok(())
  }

  /** `checkReadOnly`: fails for a read-only file system, open or not. */
  function CheckReadOnly(s: Lifecycle): (r: Result<()>)
    ensures r.Ok? <==> !s.readOnly
    ensures r.Err? ==> r.fault == ReadOnlyFileSystem
  {
    if s.readOnly then Err(ReadOnlyFileSystem) else Ok(())
  }

  /** Whether `close` calls `flush`: only on an open, writable file system. */
  function CloseFlushes(s: Lifecycle): (b: bool)
    ensures b ==> CheckClosed(s).Ok? && CheckReadOnly(s).Ok?
    ensures !b ==> s.closed || s.readOnly
  {
    !s.closed && !s.readOnly
  }

  /** The flags after a `close` whose flush (if any) succeeded. */
  function Closed(s: Lifecycle): (r: Lifecycle)
    ensures r.closed && r.readOnly == s.readOnly
    ensures CheckClosed(r).Err? && !CloseFlushes(r)
  {
    s.(closed := true)
  }
}
