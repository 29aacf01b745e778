/** Little-endian field access on a byte vector (FAT on-disk integers are
    stored low byte first). */
module LittleEndian {
  import opened Bytes
  import opened Wrappers

  function GetUInt8(src: seq<Byte>, o: nat): (v: int)
    requires o < |src|
    ensures 0 <= v < 0x100
    ensures v == src[o]
  {
    src[o]
  }

  function GetUInt16(src: seq<Byte>, o: nat): (v: int)
    requires o + 2 <= |src|
    ensures 0 <= v < 0x1_0000
    ensures v % 0x100 == src[o] && v / 0x100 == src[o + 1]
  {
    src[o] as int + 0x100 * src[o + 1] as int
  }

  function GetUInt32(src: seq<Byte>, o: nat): (v: int)
    requires o + 4 <= |src|
    ensures 0 <= v < UINT32_LIMIT
    ensures v % 0x1_0000 == GetUInt16(src, o)
    ensures v / 0x1_0000 == GetUInt16(src, o + 2)
  {
    GetUInt16(src, o) + 0x1_0000 * GetUInt16(src, o + 2)
  }

  /** `setInt8`: fails unless the value is a byte, then stores it. */
  function SetInt8(dst: seq<Byte>, o: nat, v: int): (r: Result<seq<Byte>>)
    requires o < |dst|
    ensures r.Ok? <==> 0 <= v < 0x100
    ensures r.Ok? ==> |r.value| == |dst| && GetUInt8(r.value, o) == v
    ensures r.Ok? ==> forall i :: 0 <= i < |dst| && i != o ==> r.value[i] == dst[i]
  {
    if 0 <= v < 0x100 then Ok(dst[o := v]) else Err(ValueOutOfRange)
  }

  /** `setInt16`: fails unless the value fits in 16 unsigned bits, then
      stores its low byte at `o` and its high byte at `o + 1`. */
  function SetInt16(dst: seq<Byte>, o: nat, v: int): (r: Result<seq<Byte>>)
    requires o + 2 <= |dst|
    ensures r.Ok? <==> 0 <= v < 0x1_0000
    ensures r.Ok? ==> |r.value| == |dst| && GetUInt16(r.value, o) == v
    ensures r.Ok? ==> forall i :: 0 <= i < |dst| && !(o <= i < o + 2) ==> r.value[i] == dst[i]
  {
    if 0 <= v < 0x1_0000 then
      Split16(v);
      Ok(dst[o := Low8(v)][o + 1 := Low8(v / 0x100)])
    else Err(ValueOutOfRange)
  }

  /** `setInt32`: only values above INT_MAX are rejected; a negative value
      has its low 32 bits (two's complement) stored, low byte first. */
  function SetInt32(dst: seq<Byte>, o: nat, v: int): (r: Result<seq<Byte>>)
    requires o + 4 <= |dst|
    ensures r.Ok? <==> v <= INT_MAX
    ensures r.Ok? ==> |r.value| == |dst| && GetUInt32(r.value, o) == v % UINT32_LIMIT
    ensures r.Ok? ==> forall i :: 0 <= i < |dst| && !(o <= i < o + 4) ==> r.value[i] == dst[i]
  {
    if v <= INT_MAX then
      var w := dst[o := Low8(v)][o + 1 := Low8(v / 0x100)]
                  [o + 2 := Low8(v / 0x1_0000)][o + 3 := Low8(v / 0x100_0000)];
      Split32(v);
      Ok(w)
    else Err(ValueOutOfRange)
  }

  /** The two stored bytes reassemble the value modulo 2^16. */
  lemma Split16(v: int)
    ensures Low8(v) + 0x100 * Low8(v / 0x100) == v % 0x1_0000
  {
    var q1 := v / 0x100;
    var q2 := q1 / 0x100;
    assert q2 == v / 0x1_0000;
    assert v == v % 0x100 + 0x100 * (q1 % 0x100) + 0x1_0000 * q2;
  }

  /** The four stored bytes reassemble the value modulo 2^32. */
  lemma Split32(v: int)
    ensures Low8(v) + 0x100 * Low8(v / 0x100)
            + 0x1_0000 * (Low8(v / 0x1_0000) + 0x100 * Low8(v / 0x100_0000))
            == v % UINT32_LIMIT
  {
    var q1, q2, q3 := v / 0x100, v / 0x1_0000, v / 0x100_0000;
    assert q1 / 0x100 == q2 && q2 / 0x100 == q3;
    var r0, r1, r2, r3 := v % 0x100, q1 % 0x100, q2 % 0x100, q3 % 0x100;
    assert v == r0 + 0x100 * r1 + 0x1_0000 * r2 + 0x100_0000 * r3 + UINT32_LIMIT * (q3 / 0x100);
  }

  /** Round trip: a non-negative `int` value stored with `setInt32` reads
      back unchanged; a negative one reads back as its unsigned image. */
  lemma RoundTrip32(dst: seq<Byte>, o: nat, v: int)
    requires o + 4 <= |dst| && v <= INT_MAX
    ensures SetInt32(dst, o, v).Ok?
    ensures 0 <= v ==> GetUInt32(SetInt32(dst, o, v).value, o) == v
    ensures -0x8000_0000 <= v < 0 ==> GetUInt32(SetInt32(dst, o, v).value, o) == v + UINT32_LIMIT
  {
    if 0 <= v {
      SmallMod(v, UINT32_LIMIT);
    } else if -0x8000_0000 <= v {
      WrapNegative(v, UINT32_LIMIT);
    }
  }
}
