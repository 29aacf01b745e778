/** The cursor buffer used by sectors and block devices
    (src/main/ByteBuffer.hpp): a byte vector with a position and a limit.
    This variant never checks the limit: `remaining` is measured against the
    capacity, `limit(n)` stores any value, and `putShort` is not a
    little-endian store. */
module ByteBuffer {
  import opened Bytes
  import opened Wrappers

  datatype Buffer = Buffer(buf: seq<Byte>, pos: int, lim: int)
  {
    function Capacity(): (n: nat)
    {
      |buf|
    }

    /** `remaining()`: measured against the capacity, not the limit. */
    function Remaining(): (n: int)
      ensures n == Capacity() - pos
    {
      |buf| - pos
    }

    function HasRemaining(): (b: bool)
      ensures b <==> pos < Capacity()
    {
      Remaining() > 0
    }
  }

  /** `ByteBuffer(size)`: zero-filled, position 0, limit = size. */
  function Allocate(size: nat): (b: Buffer)
    ensures b.Capacity() == size && b.pos == 0 && b.lim == size
    ensures forall i :: 0 <= i < size ==> b.buf[i] == 0
  {
    Buffer(seq(size, _ => 0), 0, size)
  }

  /** `ByteBuffer(data)`: wraps a copy of the data. */
  function Wrap(data: seq<Byte>): (b: Buffer)
    ensures b.buf == data && b.pos == 0 && b.lim == |data|
  {
    Buffer(data, 0, |data|)
  }

  function Flip(b: Buffer): (r: Buffer)
    ensures r.buf == b.buf && r.lim == b.pos && r.pos == 0
  {
    b.(lim := b.pos, pos := 0)
  }

  function Rewind(b: Buffer): (r: Buffer)
    ensures r.buf == b.buf && r.lim == b.lim && r.pos == 0
  {
    b.(pos := 0)
  }

  function SetPosition(b: Buffer, p: int): (r: Buffer)
    ensures r.buf == b.buf && r.lim == b.lim && r.pos == p
  {
    b.(pos := p)
  }

  /** `limit(n)`: stored without any range check; the position is kept. */
  function SetLimit(b: Buffer, n: int): (r: Buffer)
    ensures r.buf == b.buf && r.pos == b.pos && r.lim == n
  {
    b.(lim := n)
  }

  /** `get()`: the byte at the position; the position advances by one. */
  function Get(b: Buffer): (r: (Buffer, Byte))
    requires 0 <= b.pos < b.Capacity()
    ensures r.0.buf == b.buf && r.0.lim == b.lim && r.0.pos == b.pos + 1
    ensures r.1 == b.buf[b.pos]
  {
    (b.(pos := b.pos + 1), b.buf[b.pos])
  }

  /** `get(dest)`: reads `n` bytes from the position.  A request longer than
      the whole vector throws, after the bytes before the throw were read. */
  function GetBytes(b: Buffer, n: nat): (r: Partial<Buffer, seq<Byte>>)
    requires 0 <= b.pos && b.pos + (if n < b.Capacity() then n else b.Capacity()) <= b.Capacity()
    ensures r.Done? <==> n <= b.Capacity()
    ensures r.state.buf == b.buf && r.state.lim == b.lim
    ensures r.Done? ==> r.state.pos == b.pos + n && r.value == b.buf[b.pos..b.pos + n]
    ensures r.Aborted? ==> r.state.pos == b.Capacity() && r.fault == BufferOverrun
  {
    if n <= |b.buf| then Done(b.(pos := b.pos + n), b.buf[b.pos..b.pos + n])
    else Aborted(b.(pos := |b.buf|), BufferOverrun)
  }

  /** `getShort(index)`: the 16-bit value at `index`, sign-extended as a
      `short`; the position advances by two even though an index is given. */
  function GetShort(b: Buffer, index: nat): (r: (Buffer, int))
    requires index + 2 <= b.Capacity()
    ensures r.0.buf == b.buf && r.0.lim == b.lim && r.0.pos == b.pos + 2
    ensures -0x8000 <= r.1 < 0x8000
    ensures r.1 % 0x1_0000 == b.buf[index] as int + 0x100 * b.buf[index + 1] as int
  {
    var u := b.buf[index] as int + 0x100 * b.buf[index + 1] as int;
    (b.(pos := b.pos + 2), if u < 0x8000 then u else u - 0x1_0000)
  }

  /** `getInt(index)`: the 32-bit value at `index` read in host byte order
      (taken as little-endian); the position advances by four. */
  function GetInt(b: Buffer, index: nat): (r: (Buffer, int))
    requires index + 4 <= b.Capacity()
    ensures r.0.buf == b.buf && r.0.lim == b.lim && r.0.pos == b.pos + 4
    ensures 0 <= r.1 < UINT32_LIMIT
    ensures && r.1 % 0x100 == b.buf[index] as int && r.1 / 0x100 % 0x100 == b.buf[index + 1] as int
            && r.1 / 0x1_0000 % 0x100 == b.buf[index + 2] as int && r.1 / 0x100_0000 == b.buf[index + 3] as int
  {
    (b.(pos := b.pos + 4),
     b.buf[index] as int + 0x100 * b.buf[index + 1] as int
     + 0x1_0000 * b.buf[index + 2] as int + 0x100_0000 * b.buf[index + 3] as int)
  }

  /** `put(c)`: stores at the position and advances it by one. */
  function Put(b: Buffer, c: Byte): (r: Buffer)
    requires 0 <= b.pos < b.Capacity()
    ensures r.Capacity() == b.Capacity() && r.lim == b.lim && r.pos == b.pos + 1
    ensures r.buf[b.pos] == c
    ensures forall i :: 0 <= i < b.Capacity() && i != b.pos ==> r.buf[i] == b.buf[i]
  {
    Buffer(b.buf[b.pos := c], b.pos + 1, b.lim)
  }

  /** `put(offset, c)`: stores at `offset`; the position is unchanged. */
  function PutAt(b: Buffer, o: nat, c: Byte): (r: Buffer)
    requires o < b.Capacity()
    ensures r.Capacity() == b.Capacity() && r.lim == b.lim && r.pos == b.pos
    ensures r.buf[o] == c
    ensures forall i :: 0 <= i < b.Capacity() && i != o ==> r.buf[i] == b.buf[i]
  {
    b.(buf := b.buf[o := c])
  }

  /** `put(data)`: copies the data at the position and advances it by the
      data length; data longer than the whole vector throws part-way. */
  function PutBytes(b: Buffer, data: seq<Byte>): (r: Partial<Buffer, ()>)
    requires 0 <= b.pos && b.pos + (if |data| < b.Capacity() then |data| else b.Capacity()) <= b.Capacity()
    ensures r.Done? <==> |data| <= b.Capacity()
    ensures r.state.Capacity() == b.Capacity() && r.state.lim == b.lim
    ensures r.Done? ==> r.state.pos == b.pos + |data|
    ensures r.Done? ==> r.state.buf == b.buf[..b.pos] + data + b.buf[b.pos + |data|..]
    ensures r.Aborted? ==> r.state.pos == b.Capacity() && r.state.buf == data[..b.Capacity()]
  {
    if |data| <= |b.buf| then
      Done(b.(buf := b.buf[..b.pos] + data + b.buf[b.pos + |data|..], pos := b.pos + |data|), ())
    else
      Aborted(b.(buf := data[..|b.buf|], pos := |b.buf|), BufferOverrun)
  }

  /** `putShort(offset, s)` as written: `buf[offset] = s & 0xFF00` keeps
      only the low eight bits of that mask, which are always zero, and
      `buf[offset + 1] = s & 0xFF`. */
  function PutShort(b: Buffer, o: nat, s: int): (r: Buffer)
    requires o + 2 <= b.Capacity()
    requires -0x8000 <= s < 0x8000
    ensures r.Capacity() == b.Capacity() && r.pos == b.pos && r.lim == b.lim
    ensures r.buf[o] == 0 && r.buf[o + 1] == s % 0x100
    ensures forall i :: 0 <= i < b.Capacity() && !(o <= i < o + 2) ==> r.buf[i] == b.buf[i]
  {
    var hiMask := s % 0x1_0000 - s % 0x100;   // s & 0xFF00
    HighByteMask(s);
    b.(buf := b.buf[o := Low8(hiMask)][o + 1 := Low8(s)])
  }

  /** `s & 0xFF00` has no bits in the low byte. */
  lemma HighByteMask(s: int)
    ensures (s % 0x1_0000 - s % 0x100) % 0x100 == 0
  {
    var q := s / 0x1_0000;
    assert s % 0x1_0000 == s - 0x1_0000 * q;
    assert s % 0x1_0000 - s % 0x100 == 0x100 * (s / 0x100 - 0x100 * q);
  }

  /** The round trip through this variant's `putShort` and `getShort` does
      not return the stored value: it returns the low byte moved up by
      eight bits. */
  lemma PutShortGetShort(b: Buffer, o: nat, s: int)
    requires o + 2 <= b.Capacity()
    requires -0x8000 <= s < 0x8000
    ensures GetShort(PutShort(b, o, s), o).1 % 0x1_0000 == 0x100 * (s % 0x100)
    ensures s % 0x100 != 0 ==> GetShort(PutShort(b, o, s), o).1 % 0x1_0000 != s % 0x1_0000
  {
  }

  /** Writing a byte then reading it at the same position gives it back. */
  lemma PutGet(b: Buffer, c: Byte)
    requires 0 <= b.pos < b.Capacity()
    ensures Get(SetPosition(Put(b, c), b.pos)).1 == c
    ensures Get(SetPosition(Put(b, c), b.pos)).0 == Put(b, c)
  {
  }
}
