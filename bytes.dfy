/** Machine integers and the fixed-width byte encoding used when hashing:
    Go's 64-bit `int`/`int64`, the `byte` conversion, and `int64ToBytes`
    (a big-endian `PutUint64` of the two's-complement value). */
module Bytes {

  type Byte = b: int | 0 <= b < 256

  const INT64_MIN: int := -0x8000_0000_0000_0000
  const INT64_MAX: int := 0x7fff_ffff_ffff_ffff
  const TWO_64: int := 0x1_0000_0000_0000_0000

  /** Go's `int64`, and Go's `int` on a 64-bit platform. */
  type Int64 = x: int | -0x8000_0000_0000_0000 <= x <= 0x7fff_ffff_ffff_ffff

  /** Go's signed arithmetic wraps around: the mathematical result is reduced
      into the 64-bit two's-complement range. */
  function WrapInt64(x: int): (r: Int64)
    ensures (r - x) % TWO_64 == 0
    ensures INT64_MIN <= x <= INT64_MAX ==> r == x
  {
    var m := (x - INT64_MIN) % TWO_64;
    assert (x - INT64_MIN) == ((x - INT64_MIN) / TWO_64) * TWO_64 + m;
    m + INT64_MIN
  }

  /** Go's `byte(i)` on a signed integer: the low eight bits of its
      two's-complement representation. */
  function LowByte(i: Int64): (b: Byte)
    ensures (b - i) % 256 == 0
  {
    assert i == (i / 256) * 256 + i % 256;
    i % 256
  }

  /** Go's `uint64(n)` on an `int64`: the same bits read as unsigned. */
  function ToUint64(n: Int64): (u: nat)
    ensures u < TWO_64
    ensures (u - n) % TWO_64 == 0
    ensures 0 <= n ==> u == n
  {
    if n < 0 then n + TWO_64 else n
  }

  /** Go's `int64(u)` on a `uint64`: the inverse reading. */
  function FromUint64(u: nat): (n: Int64)
    requires u < TWO_64
    ensures ToUint64(n) == u
  {
    if u > INT64_MAX then u - TWO_64 else u
  }

  function Pow256(k: nat): (p: nat)
    ensures p > 0
  {
    if k == 0 then 1 else 256 * Pow256(k - 1)
  }

  lemma Pow256Eight()
    ensures Pow256(8) == TWO_64
  {
    assert Pow256(4) == 0x1_0000_0000;
  }

  /** The `width` low-order bytes of `u`, most significant first. */
  function BigEndian(u: nat, width: nat): (s: seq<Byte>)
    ensures |s| == width
  {
    if width == 0 then [] else BigEndian(u / 256, width - 1) + [u % 256]
  }

  lemma {:induction false} BigEndianZero(width: nat)
    ensures BigEndian(0, width) == seq(width, _ => 0)
  {
    if width > 0 {
      BigEndianZero(width - 1);
    }
  }

  /** The unsigned number a big-endian byte string denotes. */
  function FromBigEndian(s: seq<Byte>): (u: nat)
    ensures u < Pow256(|s|)
  {
    if s == [] then 0 else FromBigEndian(s[..|s| - 1]) * 256 + s[|s| - 1]
  }

  lemma {:induction false} BigEndianRoundTrip(u: nat, width: nat)
    requires u < Pow256(width)
    ensures FromBigEndian(BigEndian(u, width)) == u
  {
    if width > 0 {
      var s := BigEndian(u, width);
      assert s[..|s| - 1] == BigEndian(u / 256, width - 1);
      assert u / 256 < Pow256(width - 1);
      BigEndianRoundTrip(u / 256, width - 1);
    }
  }

  lemma {:induction false} BigEndianOfDenotation(s: seq<Byte>)
    ensures BigEndian(FromBigEndian(s), |s|) == s
  {
    if s != [] {
      var p, b := s[..|s| - 1], s[|s| - 1];
      var a := FromBigEndian(p);
      assert (a * 256 + b) / 256 == a && (a * 256 + b) % 256 == b;
      BigEndianOfDenotation(p);
      assert s == p + [b];
    }
  }

  /** `int64ToBytes`: always eight bytes, spelling `uint64(number)` big-endian. */
  function Int64ToBytes(number: Int64): (r: seq<Byte>)
    ensures |r| == 8
    ensures FromBigEndian(r) == ToUint64(number)
  {
    Pow256Eight();
    BigEndianRoundTrip(ToUint64(number), 8);
    BigEndian(ToUint64(number), 8)
  }

  /** Reading eight big-endian bytes back as a signed 64-bit value
      (`int64(binary.BigEndian.Uint64(s))`). */
  function Int64FromBytes(s: seq<Byte>): Int64
    requires |s| == 8
  {
    Pow256Eight();
    FromUint64(FromBigEndian(s))
  }

  lemma Int64RoundTrip(number: Int64)
    ensures Int64FromBytes(Int64ToBytes(number)) == number
  {
  }

  lemma Int64BytesRoundTrip(s: seq<Byte>)
    requires |s| == 8
    ensures Int64ToBytes(Int64FromBytes(s)) == s
  {
    BigEndianOfDenotation(s);
    Pow256Eight();
  }

  /** The encoding loses nothing: distinct numbers give distinct bytes. */
  lemma Int64ToBytesInjective(m: Int64, n: Int64)
    requires Int64ToBytes(m) == Int64ToBytes(n)
    ensures m == n
  {
    Int64RoundTrip(m);
    Int64RoundTrip(n);
  }
}
