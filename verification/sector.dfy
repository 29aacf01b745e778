/** A fixed-size record mirrored from a fixed device offset, with a dirty
    flag and 8/16/32-bit field accessors over its buffer. */
module Sector {
  import opened Bytes
  import opened Wrappers
  import LittleEndian
  import ByteBuffer
  import Device

  datatype Sector = Sector(offset: nat, buffer: ByteBuffer.Buffer, dirty: bool)
  {
    function Data(): seq<Byte>
    {
      buffer.buf
    }

    function Size(): nat
    {
      |buffer.buf|
    }
  }

  /** A new sector: a zero buffer of the given size, and dirty. */
  function Create(offset: nat, size: nat): (s: Sector)
    ensures s.dirty && s.offset == offset && s.Size() == size
    ensures forall i :: 0 <= i < size ==> s.Data()[i] == 0
  {
    Sector(offset, ByteBuffer.Allocate(size), true)
  }

  /** `get8` returns a `char`, so a stored byte of 0x80 or more reads back
      negative. */
  function Get8(s: Sector, o: nat): (v: int)
    requires o < s.Size()
    ensures -128 <= v < 128
    ensures (v + 256) % 256 == s.Data()[o]
    ensures v >= 0 <==> s.Data()[o] < 0x80
  {
    SignedChar(s.buffer.buf[o])
  }

  /** `get16`: the signed `getShort` masked back to 16 unsigned bits, which
      is the little-endian value of the two bytes. */
  function Get16(s: Sector, o: nat): (v: int)
    requires o + 2 <= s.Size()
    ensures v == LittleEndian.GetUInt16(s.Data(), o)
  {
    ByteBuffer.GetShort(s.buffer, o).1 % 0x1_0000
  }

  /** `get32`: the buffer's `getInt`. */
  function Get32(s: Sector, o: nat): (v: int)
    requires o + 4 <= s.Size()
    ensures v == LittleEndian.GetUInt32(s.Data(), o)
  {
    ByteBuffer.GetInt(s.buffer, o).1
  }

  /** The C `(short)` conversion of a 16-bit pattern. */
  function Short(u: int): (s: int)
    requires 0 <= u < 0x1_0000
    ensures -0x8000 <= s < 0x8000 && s % 0x1_0000 == u
  {
    if u < 0x8000 then u else u - 0x1_0000
  }

  /** `set16` as written: it goes through the buffer's `putShort`, which
      stores a zero byte and then the low byte. */
  function Set16AsWritten(s: Sector, o: nat, v: int): (r: Sector)
    requires o + 2 <= s.Size()
    ensures r.dirty && r.offset == s.offset && r.Size() == s.Size()
    ensures Get16(r, o) == 0x100 * (v % 0x100)
    ensures forall i :: 0 <= i < s.Size() && !(o <= i < o + 2) ==> r.Data()[i] == s.Data()[i]
  {
    var sh := Short(v % 0x1_0000);
    assert sh % 0x100 == v % 0x100 by {
      var u := v % 0x1_0000;
      var k := -0x100 * (v / 0x1_0000);
      assert u == v + 0x100 * k;
      LowByteShift(v, k);
      LowByteShift(u, -0x100);
      assert sh == u || sh == u + 0x100 * -0x100;
    }
    var r := Sector(s.offset, ByteBuffer.PutShort(s.buffer, o, sh), true);
    assert r.Data()[o] == 0 && r.Data()[o + 1] == v % 0x100;
    r
  }

  /** `set16` as evidently intended: the low 16 bits of the value stored
      little-endian, everything else unchanged, and the sector dirty. */
  function Set16(s: Sector, o: nat, v: int): (r: Sector)
    requires o + 2 <= s.Size()
    ensures r.dirty && r.offset == s.offset && r.Size() == s.Size()
    ensures Get16(r, o) == v % 0x1_0000
    ensures forall i :: 0 <= i < s.Size() && !(o <= i < o + 2) ==> r.Data()[i] == s.Data()[i]
  {
    var w := LittleEndian.SetInt16(s.buffer.buf, o, v % 0x1_0000).value;
    Sector(s.offset, s.buffer.(buf := w), true)
  }

  /** `set32` as written: the store is commented out; only the dirty flag
      changes. */
  function Set32AsWritten(s: Sector, o: nat, v: int): (r: Sector)
    requires o + 4 <= s.Size()
    ensures r.dirty && r.Data() == s.Data() && r.offset == s.offset
  {
    s.(dirty := true)
  }

  /** `set32` as evidently intended (the commented-out
      `putInt(offset, (int) (value & 0xffffffff))`): the low 32 bits of the
      value stored little-endian. */
  function Set32(s: Sector, o: nat, v: int): (r: Sector)
    requires o + 4 <= s.Size()
    ensures r.dirty && r.offset == s.offset && r.Size() == s.Size()
    ensures Get32(r, o) == v % UINT32_LIMIT
    ensures forall i :: 0 <= i < s.Size() && !(o <= i < o + 4) ==> r.Data()[i] == s.Data()[i]
  {
    var u := v % UINT32_LIMIT;
    var asInt := if u <= INT_MAX then u else u - UINT32_LIMIT;
    assert asInt % UINT32_LIMIT == u;
    var w := LittleEndian.SetInt32(s.buffer.buf, o, asInt).value;
    assert LittleEndian.GetUInt32(w, o) == u;
    Sector(s.offset, s.buffer.(buf := w), true)
  }

  /** Which behaviour of the multi-byte stores a setter follows: the
      source's (`set16` through `putShort`, `set32` storing nothing) or
      the evidently intended one. */
  datatype Stores = AsWritten | Intended

  /** What a 16-bit field reads back after storing `v`. */
  function Stored16(m: Stores, v: int): (u: int)
    ensures 0 <= u < 0x1_0000
    ensures m.Intended? ==> u == v % 0x1_0000
    ensures m.AsWritten? ==> u % 0x100 == 0
  {
    if m.AsWritten? then 0x100 * (v % 0x100) else v % 0x1_0000
  }

  /** `set16` with the chosen behaviour. */
  function Put16(m: Stores, s: Sector, o: nat, v: int): (r: Sector)
    requires o + 2 <= s.Size()
    ensures r.dirty && r.offset == s.offset && r.Size() == s.Size()
    ensures Get16(r, o) == Stored16(m, v)
    ensures forall i :: 0 <= i < s.Size() && !(o <= i < o + 2) ==> r.Data()[i] == s.Data()[i]
  {
    if m.AsWritten? then Set16AsWritten(s, o, v) else Set16(s, o, v)
  }

  /** `set32` with the chosen behaviour: as written, the field keeps what
      it held. */
  function Put32(m: Stores, s: Sector, o: nat, v: int): (r: Sector)
    requires o + 4 <= s.Size()
    ensures r.dirty && r.offset == s.offset && r.Size() == s.Size()
    ensures Get32(r, o) == if m.AsWritten? then Get32(s, o) else v % UINT32_LIMIT
    ensures forall i :: 0 <= i < s.Size() && !(o <= i < o + 4) ==> r.Data()[i] == s.Data()[i]
  {
    if m.AsWritten? then Set32AsWritten(s, o, v) else Set32(s, o, v)
  }

  /** `set8`: rejects anything that is not an unsigned byte value. */
  function Set8(s: Sector, o: nat, v: int): (r: Result<Sector>)
    requires o < s.Size()
    ensures r.Ok? <==> 0 <= v < 0x100
    ensures r.Ok? ==> r.value.dirty && r.value.offset == s.offset && r.value.Size() == s.Size()
    ensures r.Ok? ==> r.value.Data()[o] == v
    ensures r.Ok? ==> forall i :: 0 <= i < s.Size() && i != o ==> r.value.Data()[i] == s.Data()[i]
  {
    if 0 <= v < 0x100 then Ok(Sector(s.offset, ByteBuffer.PutAt(s.buffer, o, v), true))
    else Err(ValueOutOfRange)
  }

  /** `read_()`: the whole buffer is refilled from the device at the
      sector's offset and the sector becomes clean. */
  function ReadFrom(s: Sector, d: Device.Device): (r: Result<Sector>)
    ensures r.Ok? <==> s.offset + s.Size() <= |d.data|
    ensures r.Ok? ==> !r.value.dirty && r.value.offset == s.offset
    ensures r.Ok? ==> r.value.Data() == d.data[s.offset..s.offset + s.Size()]
  {
    var b := ByteBuffer.SetLimit(ByteBuffer.Rewind(s.buffer), s.buffer.Capacity());
    var b' :- Device.Read(d, s.offset, b);
    assert b'.buf == d.data[s.offset..s.offset + s.Size()];
    Ok(Sector(s.offset, b', false))
  }

  /** `write()`: nothing when clean; otherwise the whole buffer goes to the
      device at the sector's offset and the sector becomes clean. */
  function Write(s: Sector, d: Device.Device): (r: Result<(Device.Device, Sector)>)
    ensures !s.dirty ==> r == Ok((d, s))
    ensures s.dirty ==> (r.Ok? <==> s.offset + s.Size() <= |d.data|)
    ensures s.dirty && r.Ok? ==> !r.value.1.dirty && r.value.1.Data() == s.Data()
    ensures s.dirty && r.Ok? ==> (|r.value.0.data| == |d.data|
                               && r.value.0.data[s.offset..s.offset + s.Size()] == s.Data())
    ensures s.dirty && r.Ok? ==> forall i :: 0 <= i < |d.data| && !(s.offset <= i < s.offset + s.Size()) ==>
                                              r.value.0.data[i] == d.data[i]
  {
    if !s.dirty then Ok((d, s))
    else
      var b := ByteBuffer.SetLimit(ByteBuffer.SetPosition(s.buffer, 0), s.buffer.Capacity());
      var (d', b') :- Device.Write(d, s.offset, b);
      assert d'.data[s.offset..s.offset + s.Size()] == s.Data();
      Ok((d', Sector(s.offset, b', false)))
  }

  /** A dirty sector written out and read back is unchanged and clean. */
  lemma WriteThenRead(s: Sector, d: Device.Device)
    requires s.dirty && s.offset + s.Size() <= |d.data|
    ensures Write(s, d).Ok?
    ensures ReadFrom(s, Write(s, d).value.0).Ok?
    ensures ReadFrom(s, Write(s, d).value.0).value.Data() == s.Data()
  {
  }

  /** The 16-bit setter as written does not round-trip: storing 512 in the
      bytes-per-sector field of a boot sector reads back as 0. */
  lemma Set16AsWrittenLosesValue(s: Sector)
    requires s.Size() == 512
    ensures Get16(Set16AsWritten(s, 0x0b, 512), 0x0b) == 0
    ensures Get16(Set16(s, 0x0b, 512), 0x0b) == 512
  {
  }

  /** The 32-bit setter as written does not store: on a fresh sector a
      70000-sector count reads back as 0. */
  lemma Set32AsWrittenLosesValue()
    ensures Get32(Set32AsWritten(Create(0, 512), 0x20, 70000), 0x20) == 0
    ensures Get32(Set32(Create(0, 512), 0x20, 70000), 0x20) == 70000
  {
    var s := Create(0, 512);
    assert Set32AsWritten(s, 0x20, 70000).Data()[0x20..0x24] == [0, 0, 0, 0];
  }
}
