/** Bytes and the big-endian integer encodings the firmware formats use. */
module Bytes {

  /** One octet of a firmware file. */
  type byte = b: int | 0 <= b < 256

  const TWO_POW_32: nat := 0x1_0000_0000

  /** The value of a big-endian byte string, as `int(bs.hex(), 16)` or
      `int.from_bytes(bs, 'big')` computes it (0 for the empty string). */
  function BeValue(bs: seq<byte>): nat
  {
    if |bs| == 0 then 0 else BeValue(bs[..|bs| - 1]) * 256 + bs[|bs| - 1]
  }

  /** `BeValue` of at most four bytes, written out byte by byte. */
  function BeValueUpTo4(bs: seq<byte>): (r: nat)
    requires |bs| <= 4
  {
    if |bs| == 0 then 0
    else if |bs| == 1 then bs[0] as int
    else if |bs| == 2 then (bs[0] as int) * 0x100 + bs[1] as int
    else if |bs| == 3 then (bs[0] as int) * 0x10000 + (bs[1] as int) * 0x100 + bs[2] as int
    else (bs[0] as int) * 0x1000000 + (bs[1] as int) * 0x10000 + (bs[2] as int) * 0x100 + bs[3] as int
  }

  lemma BeValueUpTo4Agrees(bs: seq<byte>)
    requires |bs| <= 4
    ensures BeValueUpTo4(bs) == BeValue(bs)
  {
    if |bs| > 0 {
      var p := bs[..|bs| - 1];
      assert p[..0] == [];
      if |bs| >= 2 { assert p[..1] == bs[..1] && bs[..1][..0] == []; }
      if |bs| >= 3 { assert p[..2] == bs[..2] && bs[..2][..1] == bs[..1]; }
      if |bs| == 4 { assert p[..3] == bs[..3] && bs[..3][..2] == bs[..2]; }
    }
  }

  /** `v.to_bytes(2, 'big')`. */
  function Be16(v: nat): (r: seq<byte>)
    requires v < 0x10000
    ensures |r| == 2 && BeValue(r) == v
  {
    var r := [v / 256, v % 256];
    assert r[..1] == [v / 256] && r[..1][..0] == [];
    assert BeValue(r[..1]) == v / 256;
    r
  }

  /** `v.to_bytes(4, 'big')`. */
  function Be32(v: nat): (r: seq<byte>)
    requires v < TWO_POW_32
    ensures |r| == 4 && BeValue(r) == v
  {
    var q1 := v / 256;
    var q2 := q1 / 256;
    var q3 := q2 / 256;
    var r := [q3, q2 % 256, q1 % 256, v % 256];
    assert r[..1] == [q3] && r[..1][..0] == [];
    assert BeValue(r[..1]) == q3;
    assert r[..2][..1] == [q3];
    assert r[..3][..2] == r[..2] && r[..2] == [q3, q2 % 256];
    assert r[..3] == [q3, q2 % 256, q1 % 256];
    assert BeValue(r[..2]) == q2;
    assert BeValue(r[..3]) == q1;
    r
  }

  /** `(v >> 8 * k) & 0xff`: Python's `>>` on an int is floor division by
      256 per byte, which is Dafny's `/` for a positive divisor, so this is
      exact for negative `v` too. */
  function ByteOf(v: int, k: nat): byte
    decreases k
  {
    if k == 0 then v % 256 else ByteOf(v / 256, k - 1)
  }

  /** The Euclidean quotient and remainder are determined by any
      decomposition with a remainder in range. */
  lemma ModOfDecomposition(v: int, q: int, r: int, m: int)
    requires m > 0 && v == q * m + r && 0 <= r < m
    ensures v % m == r && v / m == q
  {
    var q', r' := v / m, v % m;
    assert v == q' * m + r';
    if q' != q {
      var d := q - q';
      assert d * m == q * m - q' * m;
      assert d * m == r' - r;
      if d > 0 {
        MulAtLeast(d, m);
      } else {
        MulAtLeast(-d, m);
      }
    }
  }

  lemma {:induction false} MulAtLeast(d: int, m: int)
    requires d >= 1 && m > 0
    ensures d * m >= m
    decreases d
  {
    if d > 1 {
      MulAtLeast(d - 1, m);
      assert d * m == (d - 1) * m + m;
    }
  }

  /** The four bytes `(v >> 24) & 0xff`, `(v >> 16) & 0xff`, `(v >> 8) & 0xff`,
      `v & 0xff`: most significant first; they read back as `v` reduced to 32 bits. */
  function Masked32(v: int): (r: seq<byte>)
    ensures |r| == 4 && BeValue(r) == v % TWO_POW_32
  {
    var r := [ByteOf(v, 3), ByteOf(v, 2), ByteOf(v, 1), ByteOf(v, 0)];
    var q1 := v / 256;
    var q2 := q1 / 256;
    var q3 := q2 / 256;
    assert r == [q3 % 256, q2 % 256, q1 % 256, v % 256];
    assert r[..1] == [q3 % 256] && r[..1][..0] == [];
    assert r[..2][..1] == r[..1];
    assert BeValue(r[..1]) == q3 % 256;
    assert r[..3][..2] == r[..2] && r[..2] == [q3 % 256, q2 % 256];
    assert r[..3] == [q3 % 256, q2 % 256, q1 % 256];
    var b2 := BeValue(r[..2]);
    var b3 := BeValue(r[..3]);
    assert b2 == (q3 % 256) * 256 + q2 % 256;
    assert b3 == b2 * 256 + q1 % 256;
    assert q2 == (q3 / 256) * 0x10000 + b2;
    assert q1 == (q3 / 256) * 0x100_0000 + b3;
    assert v == (q3 / 256) * TWO_POW_32 + BeValue(r);
    ModOfDecomposition(v, q3 / 256, BeValue(r), TWO_POW_32);
    r
  }

  /** The two bytes `(v >> 8) & 0xff`, `v & 0xff`; they read back as `v` reduced to 16 bits. */
  function Masked16(v: int): (r: seq<byte>)
    ensures |r| == 2 && BeValue(r) == v % 0x10000
  {
    var r := [ByteOf(v, 1), ByteOf(v, 0)];
    var q1 := v / 256;
    assert r == [q1 % 256, v % 256];
    assert r[..1] == [q1 % 256] && r[..1][..0] == [];
    assert BeValue(r[..1]) == q1 % 256;
    assert v == q1 * 256 + v % 256;
    assert q1 == (q1 / 256) * 256 + q1 % 256;
    assert v == (q1 / 256) * 0x10000 + BeValue(r);
    ModOfDecomposition(v, q1 / 256, BeValue(r), 0x10000);
    r
  }

  /** A run of `n` copies of the byte `b`. */
  function Fill(b: byte, n: nat): (r: seq<byte>)
    ensures |r| == n && forall i :: 0 <= i < n ==> r[i] == b
  {
    seq(n, _ => b)
  }

  /** True when `s` begins with the four bytes `magic`; `s[:4] == magic` in Python. */
  predicate HasMagic(s: seq<byte>, magic: seq<byte>)
  {
    |s| >= |magic| && s[..|magic|] == magic
  }

  /** The byte values of the ASCII text `cr6c`, the kernel image magic. */
  const KERNEL_MAGIC: seq<byte> := [0x63, 0x72, 0x36, 0x63]
  /** The byte values of the ASCII text `r6cr`, the rootfs image magic. */
  const ROOTFS_MAGIC: seq<byte> := [0x72, 0x36, 0x63, 0x72]
  /** The byte values of the ASCII text `MIOT`, the magic of a whole ("all") image. */
  const MIOT_MAGIC: seq<byte> := [0x4D, 0x49, 0x4F, 0x54]
}
