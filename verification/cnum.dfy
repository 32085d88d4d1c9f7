/** C integer semantics the collectors rely on: bytes, the 32-bit signed
    conversions made when a kernel value becomes a V8 `Integer`, the
    little-endian `int` read by `memcpy`, and C's truncating division. */
module CNum {

  newtype byte = b: int | 0 <= b < 256

  const TWO_32: int := 0x1_0000_0000
  const INT32_MIN: int := -0x8000_0000
  const INT32_MAX: int := 0x7fff_ffff

  predicate InInt32(n: int) {
    INT32_MIN <= n <= INT32_MAX
  }

  /** The two's-complement 32-bit value of `n`: what an unsigned 32-bit
      `uid_t` becomes when passed to `Integer::New(int32_t)`, and what V8's
      `Int32Value` makes of an integral number. */
  function ToInt32(n: int): (r: int)
    ensures InInt32(r)
    ensures InInt32(n) ==> r == n
  {
    var m := n % TWO_32;
    if m > INT32_MAX then m - TWO_32 else m
  }

  /** The conversion keeps the value modulo 2^32, so it is the wrap-around
      of the unsigned value and not a clamp. */
  lemma ToInt32Wraps(n: int)
    ensures (ToInt32(n) - n) % TWO_32 == 0
    ensures 0 <= n < TWO_32 && n > INT32_MAX ==> ToInt32(n) == n - TWO_32
  {
  }

  /** The `int` that `memcpy` copies out of four bytes on a little-endian host. */
  function DecodeInt32LE(b0: byte, b1: byte, b2: byte, b3: byte): (r: int)
    ensures InInt32(r)
    ensures r < 0 <==> b3 >= 128
  {
    ToInt32(b0 as int + 0x100 * b1 as int + 0x1_0000 * b2 as int + 0x100_0000 * b3 as int)
  }

  /** The four bytes an `int` occupies in memory on a little-endian host. */
  function EncodeInt32LE(n: int): (bs: seq<byte>)
    requires InInt32(n)
    ensures |bs| == 4
  {
    var u := if n < 0 then n + TWO_32 else n;
    var q1 := u / 0x100;
    var q2 := q1 / 0x100;
    var q3 := q2 / 0x100;
    [(u % 0x100) as byte, (q1 % 0x100) as byte, (q2 % 0x100) as byte, q3 as byte]
  }

  lemma DecodeEncodeInt32(n: int)
    requires InInt32(n)
    ensures var bs := EncodeInt32LE(n); DecodeInt32LE(bs[0], bs[1], bs[2], bs[3]) == n
  {
    var u := if n < 0 then n + TWO_32 else n;
    var q1 := u / 0x100;
    var q2 := q1 / 0x100;
    var q3 := q2 / 0x100;
    assert u == u % 0x100 + 0x100 * q1;
    assert q1 == q1 % 0x100 + 0x100 * q2;
    assert q2 == q2 % 0x100 + 0x100 * q3;
    var bs := EncodeInt32LE(n);
    var sum := bs[0] as int + 0x100 * bs[1] as int + 0x1_0000 * bs[2] as int + 0x100_0000 * bs[3] as int;
    assert sum == u;
    assert u % TWO_32 == u;
  }

  /** C's integer `/` for a positive divisor: the quotient rounded toward zero
      (Dafny's `/` rounds toward negative infinity for negative dividends). */
  function TruncDiv(a: int, d: int): (q: int)
    requires d > 0
    ensures a >= 0 ==> 0 <= a - q * d < d
    ensures a <= 0 ==> 0 <= q * d - a < d
  {
    if a >= 0 then a / d else -((-a) / d)
  }
}
