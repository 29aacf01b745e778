/** Bytes, 8-bit characters and the C integer conventions the file system
    code relies on.  A `std::vector<char>` is modelled as a sequence of
    unsigned byte values; the signedness of `char` is applied explicitly
    where the source observes it. */
module Bytes {

  /** The bit pattern of one `char`. */
  type Byte = b: int | 0 <= b < 256

  /** A character of a `std::string`: one byte, seen as a character. */
  type Char8 = c: char | c as int < 256 witness ' '

  /** A `std::string`. */
  type Str = seq<Char8>

  const INT_MAX: int := 0x7FFF_FFFF
  const UINT32_LIMIT: int := 0x1_0000_0000

  function ByteOf(c: Char8): (b: Byte)
    ensures CharOf(b) == c
  {
    c as int
  }

  function CharOf(b: Byte): (c: Char8)
  {
    b as char
  }

  function BytesOf(s: Str): (r: seq<Byte>)
    ensures |r| == |s|
    ensures forall i :: 0 <= i < |s| ==> r[i] == ByteOf(s[i])
  {
    seq(|s|, i requires 0 <= i < |s| => ByteOf(s[i]))
  }

  function StrOf(b: seq<Byte>): (r: Str)
    ensures |r| == |b|
    ensures forall i :: 0 <= i < |b| ==> r[i] == CharOf(b[i])
  {
    seq(|b|, i requires 0 <= i < |b| => CharOf(b[i]))
  }

  lemma StrOfBytesOf(s: Str)
    ensures StrOf(BytesOf(s)) == s
  {
  }

  /** The value of a byte read back through a signed `char`
      (two's complement, as on the targets the code is built for). */
  function SignedChar(b: Byte): (v: int)
    ensures -128 <= v < 128
    ensures (v + 256) % 256 == b
  {
    if b < 128 then b else b - 256
  }

  /** `(char) v` for any integer: the low 8 bits. */
  function Low8(v: int): (b: Byte)
    ensures (v - b) % 256 == 0
  {
    v % 256
  }

  /** Bitwise `a & b` on values that fit in 32 bits. */
  function And32(a: int, b: int): (r: int)
    requires 0 <= a < UINT32_LIMIT && 0 <= b < UINT32_LIMIT
    ensures 0 <= r < UINT32_LIMIT
  {
    ((a as bv32) & (b as bv32)) as int
  }

  /** C integer division, which truncates toward zero (Dafny's `/` is
      Euclidean and differs for negative operands). */
  function CDiv(a: int, b: int): (q: int)
    requires b != 0
    ensures a >= 0 && b > 0 ==> q == a / b
    ensures (a < 0) != (b < 0) ==> q <= 0
    ensures q * b <= a || a < 0
  {
    if a >= 0 then
      DivBelow(a, if b > 0 then b else -b);
      (if b > 0 then a / b else -(a / -b))
    else
      DivBelow(-a, if b > 0 then b else -b);
      (if b > 0 then -((-a) / b) else (-a) / (-b))
  }

  /** Euclidean division of a non-negative number by a positive one leaves
      a non-negative quotient that does not overshoot. */
  lemma DivBelow(x: int, y: int)
    requires x >= 0 && y > 0
    ensures 0 <= x / y && (x / y) * y <= x
  {
    assert x == (x / y) * y + x % y;
  }

  /** A value already below the modulus is its own remainder. */
  lemma SmallMod(c: int, m: int)
    requires 0 <= c < m
    ensures c % m == c
  {
  }

  /** A negative value above minus the modulus wraps to itself plus the
      modulus. */
  lemma WrapNegative(c: int, m: int)
    requires -m <= c < 0
    ensures c % m == c + m
  {
  }

  /** Adding a multiple of 256 leaves the low byte alone. */
  lemma LowByteShift(u: int, k: int)
    ensures (u + 0x100 * k) % 0x100 == u % 0x100
  {
  }

  lemma MulNonNegative(a: int, b: int)
    requires a >= 0 && b >= 0
    ensures a * b >= 0
  {
  }

  lemma MulNonZero(a: int, b: int)
    requires a != 0 && b != 0
    ensures a * b != 0
  {
  }

  lemma MulDistributes(a: int, n: int, s: int, c: int)
    ensures (a + n * s) * c == a * c + n * (s * c)
  {
  }

  lemma MulMonotone(a: int, b: int, c: int)
    requires a <= b && c >= 0
    ensures a * c <= b * c
  {
    assert b * c - a * c == (b - a) * c;
    MulNonNegative(b - a, c);
  }

  /** Euclidean division is unique: a value written as `q * m + r` with
      `0 <= r < m` has quotient `q` and remainder `r`. */
  lemma DivModOf(v: int, q: int, r: int, m: int)
    requires m > 0 && 0 <= r < m && v == q * m + r
    ensures v / m == q && v % m == r
  {
    var q', r' := v / m, v % m;
    assert (q - q') * m == r' - r;
    if q - q' >= 1 {
      MulMonotone(1, q - q', m);
    } else if q' - q >= 1 {
      MulMonotone(1, q' - q, m);
    }
  }

  /** Two values written as `a * m + r` with remainders below `m` are equal
      only when quotients and remainders are. */
  lemma SplitUnique(a: int, r: int, b: int, t: int, m: int)
    requires m > 0 && 0 <= r < m && 0 <= t < m && a * m + r == b * m + t
    ensures a == b && r == t
  {
    DivModOf(a * m + r, a, r, m);
    DivModOf(b * m + t, b, t, m);
  }

  /** A C narrowing cast of a wider integer to a 32-bit `int`: the value
      modulo 2^32, read as a signed number. */
  function Int32(v: int): (r: int)
    ensures -0x8000_0000 <= r <= INT_MAX
    ensures (v - r) % UINT32_LIMIT == 0
    ensures -0x8000_0000 <= v <= INT_MAX ==> r == v
  {
    var u := v % UINT32_LIMIT;
    if 0 <= v <= INT_MAX then SmallMod(v, UINT32_LIMIT); u
    else if -0x8000_0000 <= v < 0 then WrapNegative(v, UINT32_LIMIT); u - UINT32_LIMIT
    else if u <= INT_MAX then u else u - UINT32_LIMIT
  }

  /** Rounding up by `(n + d - 1) / d` gives the fewest `d`-blocks that
      cover `n`. */
  lemma CeilDiv(n: int, d: int)
    requires n >= 0 && d > 0
    ensures ((n + d - 1) / d) * d >= n && ((n + d - 1) / d - 1) * d < n
  {
    var a := n + d - 1;
    var q := a / d;
    assert a == q * d + a % d;
    assert (q - 1) * d == q * d - d;
  }

  /** A value past `INT_MAX` but below 2^32 reads back negative. */
  lemma Int32Wraps(v: int)
    requires INT_MAX < v < UINT32_LIMIT
    ensures Int32(v) == v - UINT32_LIMIT < 0
  {
    SmallMod(v, UINT32_LIMIT);
  }

  /** `n` zero bytes: a freshly sized `std::vector<char>`. */
  function Zeros(n: nat): (r: seq<Byte>)
    ensures |r| == n && forall i :: 0 <= i < n ==> r[i] == 0
  {
    seq(n, _ => 0)
  }

  /** `std::min`. */
  function Min(a: int, b: int): (m: int)
    ensures m <= a && m <= b && (m == a || m == b)
  {
    if b < a then b else a
  }

  /** C `toupper` in the "C" locale: only 'a'..'z' change. */
  function UpperChar(c: Char8): (u: Char8)
    ensures 'a' <= c <= 'z' ==> u as int == c as int - 32
    ensures !('a' <= c <= 'z') ==> u == c
  {
    if 'a' <= c <= 'z' then (c as int - 32) as char else c
  }

  /** C `tolower` in the "C" locale: only 'A'..'Z' change. */
  function LowerChar(c: Char8): (l: Char8)
    ensures 'A' <= c <= 'Z' ==> l as int == c as int + 32
    ensures !('A' <= c <= 'Z') ==> l == c
  {
    if 'A' <= c <= 'Z' then (c as int + 32) as char else c
  }

  /** `a * m` by repeated addition.  Products that proofs only compare
      or add go through it so that those proofs stay in linear
      arithmetic; `TimesIs` gives the product back where it is needed. */
  function Times(a: int, m: int): int
    decreases if a < 0 then -a else a
  {
    if a == 0 then 0
    else if a > 0 then Times(a - 1, m) + m
    else Times(a + 1, m) - m
  }

  lemma {:induction false} TimesIs(a: int, m: int)
    ensures Times(a, m) == a * m
    decreases if a < 0 then -a else a
  {
    if a > 0 {
      TimesIs(a - 1, m);
    } else if a < 0 {
      TimesIs(a + 1, m);
    }
  }
}
