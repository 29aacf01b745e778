/** The checked cursor buffer (src/main/util/ByteBuffer.hpp): the same byte
    vector, position and limit, but `remaining` is measured against the
    limit, `limit(n)` is range-checked and clamps the position, and the
    16- and 32-bit stores go through the little-endian setters. */
module CheckedBuffer {
  import opened Bytes
  import opened Wrappers
  import LittleEndian

  datatype Buffer = Buffer(buf: seq<Byte>, pos: int, lim: int)
  {
    function Capacity(): (n: nat)
    {
      |buf|
    }

    /** `remaining()`: limit minus position. */
    function Remaining(): (n: int)
      ensures n + pos == lim
    {
      lim - pos
    }

    function HasRemaining(): (h: bool)
      ensures h <==> Remaining() > 0
    {
      pos < lim
    }

    /** The cursor invariant every checked operation maintains. */
    predicate Valid()
    {
      0 <= pos <= lim <= |buf|
    }
  }

  /** `clearAndAllocate(n)`: a zero-filled vector of `n` bytes with position
      0 and limit n. */
  function ClearAndAllocate(n: nat): (b: Buffer)
    ensures b.Valid() && b.pos == 0 && b.lim == n && b.Capacity() == n
    ensures b.Remaining() == n
    ensures forall i :: 0 <= i < n ==> b.buf[i] == 0
  {
    Buffer(seq(n, _ => 0), 0, n)
  }

  function Flip(b: Buffer): (r: Buffer)
    requires b.Valid()
    ensures r.Valid() && r.buf == b.buf && r.pos == 0
    ensures r.Remaining() == b.pos
  {
    b.(lim := b.pos, pos := 0)
  }

  /** `limit(n)`: rejects a limit outside [0, capacity]; otherwise sets it
      and pulls the position back to it when the position lies beyond. */
  function SetLimit(b: Buffer, n: int): (r: Result<Buffer>)
    requires 0 <= b.pos
    ensures r.Ok? <==> 0 <= n <= b.Capacity()
    ensures r.Ok? ==> r.value.Valid() && r.value.buf == b.buf && r.value.lim == n
    ensures r.Ok? ==> r.value.pos == (if b.pos > n then n else b.pos)
  {
    if n > |b.buf| || n < 0 then Err(BufferOverrun)
    else Ok(b.(lim := n, pos := if b.pos > n then n else b.pos))
  }

  /** `get()` / `put(c)`: one byte at the position, which advances by one. */
  function Get(b: Buffer): (r: (Buffer, Byte))
    requires 0 <= b.pos < b.Capacity()
    ensures r.0.buf == b.buf && r.0.lim == b.lim && r.0.pos == b.pos + 1
    ensures r.1 == b.buf[b.pos]
  {
    (b.(pos := b.pos + 1), b.buf[b.pos])
  }

  function Put(b: Buffer, c: Byte): (r: Buffer)
    requires 0 <= b.pos < b.Capacity()
    ensures r.Capacity() == b.Capacity() && r.lim == b.lim && r.pos == b.pos + 1
    ensures r.buf[b.pos] == c
    ensures forall i :: 0 <= i < b.Capacity() && i != b.pos ==> r.buf[i] == b.buf[i]
  {
    b.(buf := b.buf[b.pos := c], pos := b.pos + 1)
  }

  /** How many bytes `get(dest)` and `put(data)` move before their loop
      either ends or throws: the loop checks the index into the vector
      argument against the capacity, not the position, so it throws only
      after moving a whole capacity's worth. */
  function Moved(b: Buffer, n: nat): (k: nat)
    ensures k <= n && k <= b.Capacity()
    ensures k == n || k == b.Capacity()
  {
    if n <= b.Capacity() then n else b.Capacity()
  }

  /** `get(dest)`: `n` bytes from the position, which advances by one per
      byte.  A request longer than the vector throws once the whole
      vector is copied.  A request that runs past the end from a later
      position reads out of bounds, which the requires rules out. */
  function GetBytes(b: Buffer, n: nat): (r: Partial<Buffer, seq<Byte>>)
    requires 0 <= b.pos && b.pos + Moved(b, n) <= b.Capacity()
    ensures r.Aborted? <==> n > b.Capacity()
    ensures r.Aborted? ==> r.fault == BufferOverrun && b.pos == 0
    ensures r.state.buf == b.buf && r.state.lim == b.lim && r.state.pos == b.pos + Moved(b, n)
    ensures r.Done? ==> |r.value| == n && forall i :: 0 <= i < n ==> r.value[i] == b.buf[b.pos + i]
  {
    var k := Moved(b, n);
    if n > b.Capacity() then Aborted(b.(pos := b.pos + k), BufferOverrun)
    else Done(b.(pos := b.pos + n), b.buf[b.pos..b.pos + n])
  }

  /** `put(data)`: the bytes go in from the position, which advances by
      one per byte.  Data longer than the vector throws once the vector
      is filled with its first bytes; data that runs past the end from a
      later position writes out of bounds, which the requires rules
      out. */
  function PutBytes(b: Buffer, data: seq<Byte>): (r: Partial<Buffer, ()>)
    requires 0 <= b.pos && b.pos + Moved(b, |data|) <= b.Capacity()
    ensures r.Aborted? <==> |data| > b.Capacity()
    ensures r.Aborted? ==> r.fault == BufferOverrun && b.pos == 0
    ensures r.state.Capacity() == b.Capacity() && r.state.lim == b.lim && r.state.pos == b.pos + Moved(b, |data|)
    ensures forall i :: 0 <= i < Moved(b, |data|) ==> r.state.buf[b.pos + i] == data[i]
    ensures forall i :: 0 <= i < b.Capacity() && !(b.pos <= i < b.pos + Moved(b, |data|)) ==> r.state.buf[i] == b.buf[i]
  {
    var k := Moved(b, |data|);
    var w := b.(buf := b.buf[..b.pos] + data[..k] + b.buf[b.pos + k..], pos := b.pos + k);
    if |data| > b.Capacity() then Aborted(w, BufferOverrun) else Done(w, ())
  }

  /** Reading back what `put(data)` wrote gives the data; data longer
      than the vector leaves its first bytes behind. */
  lemma PutBytesGetBytes(b: Buffer, data: seq<Byte>)
    requires 0 <= b.pos && b.pos + Moved(b, |data|) <= b.Capacity()
    ensures var w := PutBytes(b, data).state.(pos := b.pos);
            var k := Moved(b, |data|);
            GetBytes(w, k).Done? && GetBytes(w, k).value == data[..k]
  {
    var k := Moved(b, |data|);
    var w := PutBytes(b, data).state;
    assert w.buf[b.pos..b.pos + k] == data[..k];
  }

  /** `getShort(index)`: the stored 16 bits as a signed `short`; the
      position advances by two regardless of the index. */
  function GetShort(b: Buffer, index: nat): (r: (Buffer, int))
    requires index + 2 <= b.Capacity()
    ensures r.0.buf == b.buf && r.0.lim == b.lim && r.0.pos == b.pos + 2
    ensures -0x8000 <= r.1 < 0x8000
    ensures r.1 % 0x1_0000 == LittleEndian.GetUInt16(b.buf, index)
  {
    var u := LittleEndian.GetUInt16(b.buf, index);
    (b.(pos := b.pos + 2), if u < 0x8000 then u else u - 0x1_0000)
  }

  /** `getInt(index)`: the stored 32 bits (host order taken as
      little-endian); the position advances by four. */
  function GetInt(b: Buffer, index: nat): (r: (Buffer, int))
    requires index + 4 <= b.Capacity()
    ensures r.0.buf == b.buf && r.0.lim == b.lim && r.0.pos == b.pos + 4
    ensures 0 <= r.1 < UINT32_LIMIT
    ensures r.1 % 0x1_0000 == LittleEndian.GetUInt16(b.buf, index)
    ensures r.1 / 0x1_0000 == LittleEndian.GetUInt16(b.buf, index + 2)
  {
    (b.(pos := b.pos + 4), LittleEndian.GetUInt32(b.buf, index))
  }

  /** `putShort(offset, s)`: `setInt16` of a `short`, so a negative short
      throws and a non-negative one is stored little-endian. */
  function PutShort(b: Buffer, o: nat, s: int): (r: Result<Buffer>)
    requires o + 2 <= b.Capacity()
    requires -0x8000 <= s < 0x8000
    ensures r.Ok? <==> s >= 0
    ensures r.Ok? ==> r.value.Capacity() == b.Capacity() && r.value.pos == b.pos && r.value.lim == b.lim
    ensures r.Err? ==> r.fault == ValueOutOfRange
    ensures r.Ok? ==> GetShort(r.value, o).1 == s
    ensures r.Ok? ==> forall i :: 0 <= i < b.Capacity() && !(o <= i < o + 2) ==> r.value.buf[i] == b.buf[i]
  {
    var w :- LittleEndian.SetInt16(b.buf, o, s);
    Ok(b.(buf := w))
  }

  /** `putInt(offset, v)`: `setInt32` of an `int32`, which never throws. */
  function PutInt(b: Buffer, o: nat, v: int): (r: Buffer)
    requires o + 4 <= b.Capacity()
    requires -0x8000_0000 <= v <= INT_MAX
    ensures r.Capacity() == b.Capacity() && r.pos == b.pos && r.lim == b.lim
    ensures GetInt(r, o).1 == v % UINT32_LIMIT
    ensures forall i :: 0 <= i < b.Capacity() && !(o <= i < o + 4) ==> r.buf[i] == b.buf[i]
  {
    b.(buf := LittleEndian.SetInt32(b.buf, o, v).value)
  }
}
