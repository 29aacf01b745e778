/** A block device as a byte sequence with range-checked transfers between
    the device and a cursor buffer.  A transfer moves the bytes between the
    buffer's position and its limit, but the range check uses the buffer's
    `remaining()`, which for this buffer variant is measured against the
    capacity. */
module Device {
  import opened Bytes
  import opened Wrappers
  import ByteBuffer

  datatype Device = Device(data: seq<Byte>)

  /** A buffer whose position and limit delimit a real window. */
  predicate Window(b: ByteBuffer.Buffer)
  {
    0 <= b.pos <= b.lim <= b.Capacity()
  }

  /** `read(devOffset, dest)`: fills the buffer window from the device and
      moves the position to the limit. */
  function Read(d: Device, off: nat, b: ByteBuffer.Buffer): (r: Result<ByteBuffer.Buffer>)
    requires Window(b)
    ensures r.Ok? <==> off + b.Remaining() <= |d.data|
    ensures r.Ok? ==> r.value.Capacity() == b.Capacity() && r.value.lim == b.lim && r.value.pos == b.lim
  {
    if off + b.Remaining() > |d.data| then Err(DevicePastEnd)
    else Ok(ByteBuffer.Buffer(Splice(b.buf, b.pos, d.data[off..off + (b.lim - b.pos)]), b.lim, b.lim))
  }

  /** A read fills the window with the device bytes from `off` and leaves
      the rest of the buffer alone. */
  lemma ReadBytes(d: Device, off: nat, b: ByteBuffer.Buffer)
    requires Window(b) && Read(d, off, b).Ok?
    ensures forall i :: b.pos <= i < b.lim ==> Read(d, off, b).value.buf[i] == d.data[off + i - b.pos]
    ensures forall i :: 0 <= i < b.Capacity() && !(b.pos <= i < b.lim) ==> Read(d, off, b).value.buf[i] == b.buf[i]
  {
    SpliceAt(b.buf, b.pos, d.data[off..off + (b.lim - b.pos)]);
  }

  /** `write(devOffset, src)`: stores the buffer window on the device and
      moves the position to the limit. */
  function Write(d: Device, off: nat, b: ByteBuffer.Buffer): (r: Result<(Device, ByteBuffer.Buffer)>)
    requires Window(b)
    ensures r.Ok? <==> off + b.Remaining() <= |d.data|
    ensures r.Err? ==> r.fault == DevicePastEnd
    ensures r.Ok? ==> |r.value.0.data| == |d.data|
    ensures r.Ok? ==> r.value.1 == b.(pos := b.lim)
  {
    if off + b.Remaining() > |d.data| then Err(DevicePastEnd)
    else Ok((Device(Splice(d.data, off, b.buf[b.pos..b.lim])), b.(pos := b.lim)))
  }

  /** A write stores the window at `off` and leaves the rest of the device
      alone. */
  lemma WriteBytes(d: Device, off: nat, b: ByteBuffer.Buffer)
    requires Window(b) && Write(d, off, b).Ok?
    ensures forall i :: b.pos <= i < b.lim ==> Write(d, off, b).value.0.data[off + i - b.pos] == b.buf[i]
    ensures forall i :: 0 <= i < |d.data| && !(off <= i < off + b.lim - b.pos) ==> Write(d, off, b).value.0.data[i] == d.data[i]
  {
    SpliceAt(d.data, off, b.buf[b.pos..b.lim]);
  }

  /** A write, stated as a whole: the window's bytes lie at `off`, and
      nothing else on the device changes. */
  lemma Written(d: Device, off: nat, b: ByteBuffer.Buffer)
    requires Window(b) && Write(d, off, b).Ok?
    ensures Write(d, off, b).value.0.data[off..off + (b.lim - b.pos)] == b.buf[b.pos..b.lim]
    ensures forall i :: 0 <= i < |d.data| && !(off <= i < off + b.lim - b.pos) ==> Write(d, off, b).value.0.data[i] == d.data[i]
  {
    SpliceAt(d.data, off, b.buf[b.pos..b.lim]);
    SpliceSlice(d.data, off, b.buf[b.pos..b.lim]);
  }

  /** A write as a step of a larger operation, stated by its effect on the
      device: the window's bytes at `off`, the rest unchanged. */
  method WriteWindow(d: Device, off: nat, b: ByteBuffer.Buffer) returns (r: Result<Device>)
    requires Window(b)
    ensures r.Ok? <==> off + b.Remaining() <= |d.data|
    ensures r.Err? ==> r.fault == DevicePastEnd
    ensures r.Ok? ==> && |r.value.data| == |d.data|
                      && r.value.data[off..off + (b.lim - b.pos)] == b.buf[b.pos..b.lim]
                      && forall i :: 0 <= i < |d.data| && !(off <= i < off + b.lim - b.pos) ==> r.value.data[i] == d.data[i]
  {
    var w := Write(d, off, b);
    if w.Err? {
      return Err(w.fault);
    }
    Written(d, off, b);
    r := Ok(w.value.0);
  }

  /** The write of a flipped buffer, stated over the bytes it holds. */
  method WriteImage(d: Device, off: nat, b: ByteBuffer.Buffer, ghost image: seq<Byte>) returns (r: Result<Device>)
    requires Window(b) && b.pos == 0 && b.buf[..b.lim] == image
    ensures r.Ok? <==> off + b.Capacity() <= |d.data|
    ensures r.Err? ==> r.fault == DevicePastEnd
    ensures r.Ok? ==> && |r.value.data| == |d.data| && r.value.data[off..off + |image|] == image
                      && r.value.data[..off] == d.data[..off] && r.value.data[off + |image|..] == d.data[off + |image|..]
  {
    assert b.buf[b.pos..b.lim] == image;
    r := WriteWindow(d, off, b);
    if r.Ok? {
      var e := r.value.data;
      assert e[..off] == d.data[..off];
      assert e[off + |image|..] == d.data[off + |image|..] by {
        forall i | off + |image| <= i < |d.data| ensures e[i] == d.data[i] {
        }
      }
    }
  }

  /** `dst` with the bytes from `at` onwards replaced by `src`. */
  function Splice(dst: seq<Byte>, at: nat, src: seq<Byte>): (r: seq<Byte>)
    requires at + |src| <= |dst|
    ensures |r| == |dst|
  {
    seq(|dst|, i requires 0 <= i < |dst| => if at <= i < at + |src| then src[i - at] else dst[i])
  }

  /** A splice holds `src` at `at` onwards and `dst` everywhere else. */
  lemma SpliceAt(dst: seq<Byte>, at: nat, src: seq<Byte>)
    requires at + |src| <= |dst|
    ensures forall i :: at <= i < at + |src| ==> Splice(dst, at, src)[i] == src[i - at]
    ensures forall i :: 0 <= i < |dst| && !(at <= i < at + |src|) ==> Splice(dst, at, src)[i] == dst[i]
  {
  }

  /** A splice holds the spliced bytes where they were put. */
  lemma SpliceSlice(dst: seq<Byte>, at: nat, src: seq<Byte>)
    requires at + |src| <= |dst|
    ensures Splice(dst, at, src)[at..at + |src|] == src
  {
    SpliceAt(dst, at, src);
  }

  /** Splicing in nothing changes nothing. */
  lemma SpliceNothing(x: seq<Byte>, at: nat)
    requires at <= |x|
    ensures Splice(x, at, []) == x
  {
    SpliceAt(x, at, []);
  }

  /** Two adjacent splices are one splice of both pieces. */
  lemma SpliceTwice(x: seq<Byte>, at: nat, u: seq<Byte>, v: seq<Byte>)
    requires at + |u| + |v| <= |x|
    ensures Splice(Splice(x, at, u), at + |u|, v) == Splice(x, at, u + v)
  {
    var l, r := Splice(Splice(x, at, u), at + |u|, v), Splice(x, at, u + v);
    SpliceAt(x, at, u);
    SpliceAt(Splice(x, at, u), at + |u|, v);
    SpliceAt(x, at, u + v);
    forall i | 0 <= i < |x|
      ensures l[i] == r[i]
    {
      if at <= i < at + |u| {
        assert (u + v)[i - at] == u[i - at];
      } else if at + |u| <= i < at + |u| + |v| {
        assert (u + v)[i - at] == v[i - at - |u|];
      }
    }
  }

  /** A splice of `v` right after a splice of `u` is one splice of
      `u + v`, stated over named intermediate values. */
  lemma SpliceChain(x: seq<Byte>, at: nat, u: seq<Byte>, v: seq<Byte>, y: seq<Byte>, at2: nat, z: seq<Byte>, w: seq<Byte>)
    requires at2 == at + |u| && at2 + |v| <= |x|
    requires y == Splice(x, at, u) && z == Splice(y, at2, v) && w == u + v
    ensures z == Splice(x, at, w)
  {
    SpliceTwice(x, at, u, v);
  }

  /** A piece of a slice is a slice of the whole. */
  lemma SubSlice(a: seq<Byte>, off: nat, x: seq<Byte>, n: nat, m: nat)
    requires off + |x| <= |a| && a[off..off + |x|] == x && n <= m <= |x|
    ensures a[off + n..off + m] == x[n..m]
  {
    forall i | 0 <= i < m - n ensures a[off + n..off + m][i] == x[n..m][i] {
      assert a[off + n + i] == a[off..off + |x|][n + i];
    }
  }

  /** Reading back a whole-buffer write yields the written bytes. */
  lemma WriteThenRead(d: Device, off: nat, b: ByteBuffer.Buffer)
    requires b.pos == 0 && b.lim == b.Capacity()
    requires off + b.Capacity() <= |d.data|
    ensures Write(d, off, b).Ok?
    ensures Read(Write(d, off, b).value.0, off, ByteBuffer.Rewind(b)).Ok?
    ensures Read(Write(d, off, b).value.0, off, ByteBuffer.Rewind(b)).value.buf == b.buf
  {
    var d2 := Write(d, off, b).value.0;
    var r := Read(d2, off, b).value;
    assert r.buf == b.buf;
  }
}
