/** Bytes, little-endian fields and the constants several modules share. */
module Bytes {
  type byte = x: int | 0 <= x < 256

  /** A C string: the bytes before its terminating NUL. */
  type CString = s: seq<byte> | 0 !in s

  datatype Option<+T> = None | Some(value: T)

  const U32_LIMIT: int := 0x1_0000_0000

  const PAGE_SIZE: nat := 4096

  function Min(a: nat, b: nat): nat {
    if a < b then a else b
  }

  function U16(b: seq<byte>, o: nat): (r: nat)
    requires o + 2 <= |b|
    ensures r < 0x10000
  {
    b[o] as int + 256 * b[o + 1] as int
  }

  function U32(b: seq<byte>, o: nat): (r: nat)
    requires o + 4 <= |b|
    ensures r < U32_LIMIT
  {
    b[o] as int + 256 * b[o + 1] as int + 65536 * b[o + 2] as int + 16777216 * b[o + 3] as int
  }

  /** The two bytes `(uint8_t)(v & 0xFF)`, `(uint8_t)(v >> 8)`. */
  function Le16(v: nat): (r: seq<byte>)
    ensures |r| == 2
    ensures U16(r, 0) == v % 0x10000
  {
    [v % 256, v / 256 % 256]
  }

  function Le32(v: nat): (r: seq<byte>)
    ensures |r| == 4
    ensures U32(r, 0) == v % U32_LIMIT
  {
    var q1 := v / 256;
    var q2 := q1 / 256;
    var q3 := q2 / 256;
    assert v == v % 256 + 256 * (q1 % 256) + 65536 * (q2 % 256) + 16777216 * (q3 % 256) + U32_LIMIT * (q3 / 256);
    [v % 256, q1 % 256, q2 % 256, q3 % 256]
  }

  /** `b` with the bytes from `o` on overwritten by `x`. */
  function Splice(b: seq<byte>, o: nat, x: seq<byte>): (r: seq<byte>)
    requires o + |x| <= |b|
    ensures |r| == |b|
    ensures r[o..o + |x|] == x
    ensures forall i | 0 <= i < |b| && !(o <= i < o + |x|) :: r[i] == b[i]
  {
    b[..o] + x + b[o + |x|..]
  }

  function Zeros(n: nat): (r: seq<byte>)
    ensures |r| == n
    ensures forall i | 0 <= i < n :: r[i] == 0
  {
    seq(n, _ => 0)
  }

  lemma ModOf(q: nat, n: nat, r: nat)
    requires r < n
    ensures (q * n + r) % n == r
  {
    var x := q * n + r;
    assert x == x / n * n + x % n;
    var d := x / n - q;
    assert d * n == r - x % n;
    assert d >= 1 ==> d * n >= n;
    assert d <= -1 ==> d * n <= -1 * n;
  }

  lemma PartOfPart(b: seq<byte>, lo: nat, hi: nat, at: nat, n: nat)
    requires lo <= hi <= |b| && at + n <= hi - lo
    ensures b[lo..hi][at..at + n] == b[lo + at..lo + at + n]
  {
    var x, y := b[lo..hi][at..at + n], b[lo + at..lo + at + n];
    assert forall i | 0 <= i < n :: x[i] == y[i];
    assert x == y;
  }
}
