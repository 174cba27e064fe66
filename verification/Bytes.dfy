/** Machine integers and byte strings shared by the codecs. */
module Bytes {

  type Byte = x: int | 0 <= x < 0x100
  type UInt32 = x: int | 0 <= x < 0x1_0000_0000
  type UInt64 = x: int | 0 <= x < 0x1_0000_0000_0000_0000
  type Int32 = x: int | -0x8000_0000 <= x < 0x8000_0000
  type Int16 = x: int | -0x8000 <= x < 0x8000

  datatype Option<+T> = None | Some(value: T)

  /** What a reader makes of the bytes in front of it: a value and the bytes behind it, or a failure. */
  datatype Read<+T> = Fail | Got(value: T, rest: seq<Byte>)

  /** The value of a wide unsigned integer after a C++ conversion to `short`. */
  function ToInt16(n: int): Int16 {
    (n + 0x8000) % 0x1_0000 - 0x8000
  }

  /** The low 32 bits of a varint, read as a two's complement `int32`. */
  function ToInt32(n: nat): Int32 {
    (n + 0x8000_0000) % 0x1_0000_0000 - 0x8000_0000
  }

  /** An `int32` is written as a varint after sign extension to 64 bits. */
  function SignExtend(v: Int32): UInt64 {
    if v < 0 then v + 0x1_0000_0000_0000_0000 else v
  }

  /** What these conversions keep: the value modulo 2^16, 2^32 and 2^64, which determines it. */
  lemma ToInt16Unique(n: int, v: Int16)
    requires (v as int - n) % 0x1_0000 == 0
    ensures ToInt16(n) == v
  {
  }

  lemma ToInt32Unique(n: nat, v: Int32)
    requires (v as int - n) % 0x1_0000_0000 == 0
    ensures ToInt32(n) == v
  {
  }

  /** The low 32 bits of a number are those of its low 64 bits. */
  lemma Low32(n: nat, v: Int32)
    requires (v as int - n) % 0x1_0000_0000 == 0
    ensures ToInt32(n % 0x1_0000_0000_0000_0000) == v
  {
    var q := n / 0x1_0000_0000_0000_0000;
    assert n == n % 0x1_0000_0000_0000_0000 + 0x1_0000_0000 * (0x1_0000_0000 * q);
    ToInt32Unique(n % 0x1_0000_0000_0000_0000, v);
  }

  lemma SignExtendUnique(v: Int32, n: UInt64)
    requires (n as int - v as int) % 0x1_0000_0000_0000_0000 == 0
    ensures SignExtend(v) == n
  {
  }

  /** Sign extension followed by keeping the low 32 bits is the identity. */
  lemma SignExtendRoundTrip(v: Int32)
    ensures ToInt32(SignExtend(v)) == v
  {
  }

  function Flatten(chunks: seq<seq<Byte>>): seq<Byte> {
    if chunks == [] then [] else chunks[0] + Flatten(chunks[1..])
  }

  lemma Assoc<T>(a: seq<T>, b: seq<T>, c: seq<T>)
    ensures (a + b) + c == a + (b + c)
  {
  }

  lemma Halves<T>(a: seq<T>, b: seq<T>)
    ensures (a + b)[..|a|] == a && (a + b)[|a|..] == b
  {
  }

  /** Two ways to cut the same bytes, the first one later than the second. */
  lemma Align(a: seq<Byte>, b: seq<Byte>, x: seq<Byte>, y: seq<Byte>)
    requires a + b == x + y && |a| >= |x|
    ensures a == x + a[|x|..] && a[|x|..] + b == y
  {
    assert a[..|x|] == (a + b)[..|x|] == x;
    assert a[|x|..] + b == (a + b)[|x|..] == y;
  }

  function Power(base: nat, i: nat): (p: nat)
    ensures base > 0 ==> p > 0
  {
    if i == 0 then 1 else base * Power(base, i - 1)
  }

  /** The number whose bytes these are, the byte at index `i` counting 256^i. */
  function BytesValue(s: seq<Byte>): nat {
    if s == [] then 0
    else BytesValue(s[..|s| - 1]) + s[|s| - 1] * Power(0x100, |s| - 1)
  }

  lemma BytesValueLast(s: seq<Byte>, b: Byte)
    ensures BytesValue(s + [b]) == BytesValue(s) + b * Power(0x100, |s|)
  {
    assert (s + [b])[..|s|] == s;
  }

  function LittleEndian32(n: UInt32): (s: seq<Byte>)
    ensures |s| == 4
  {
    var n1, n2 := n / 0x100, n / 0x100 / 0x100;
    [n % 0x100, n1 % 0x100, n2 % 0x100, n2 / 0x100]
  }

  function FromLittleEndian32(s: seq<Byte>): UInt32
    requires |s| == 4
  {
    var b0: int, b1: int, b2: int, b3: int := s[0], s[1], s[2], s[3];
    b0 + 0x100 * (b1 + 0x100 * (b2 + 0x100 * b3))
  }

  lemma LittleEndian32RoundTrip(n: UInt32)
    ensures FromLittleEndian32(LittleEndian32(n)) == n
  {
  }

  lemma Powers()
    ensures Power(0x100, 0) == 1 && Power(0x100, 1) == 0x100 && Power(0x100, 2) == 0x1_0000
    ensures Power(0x100, 3) == 0x100_0000 && Power(0x100, 4) == 0x1_0000_0000
    ensures Power(0x100, 5) == 0x100_0000_0000 && Power(0x100, 6) == 0x1_0000_0000_0000
    ensures Power(0x100, 7) == 0x100_0000_0000_0000
  {
    assert Power(0x100, 2) == 0x100 * Power(0x100, 1);
    assert Power(0x100, 3) == 0x100 * Power(0x100, 2);
    assert Power(0x100, 4) == 0x100 * Power(0x100, 3);
    assert Power(0x100, 5) == 0x100 * Power(0x100, 4);
    assert Power(0x100, 6) == 0x100 * Power(0x100, 5);
    assert Power(0x100, 7) == 0x100 * Power(0x100, 6);
  }

  lemma Four(a: Byte, b: Byte, c: Byte, d: Byte)
    ensures BytesValue([a, b, c, d]) == a + 0x100 * b + 0x1_0000 * c + 0x100_0000 * d
  {
    Powers();
    BytesValueLast([], a);
    BytesValueLast([a], b);
    BytesValueLast([a, b], c);
    BytesValueLast([a, b, c], d);
    assert [] + [a] == [a];
    assert [a] + [b] == [a, b] && [a, b] + [c] == [a, b, c] && [a, b, c] + [d] == [a, b, c, d];
  }

  /** Four bytes are read least significant first. */
  lemma FromLittleEndian32Means(s: seq<Byte>)
    requires |s| == 4
    ensures FromLittleEndian32(s) == BytesValue(s)
  {
    Four(s[0], s[1], s[2], s[3]);
    assert s == [s[0], s[1], s[2], s[3]];
  }

  function LittleEndian64(n: UInt64): (s: seq<Byte>)
    ensures |s| == 8
  {
    LittleEndian32(n % 0x1_0000_0000) + LittleEndian32(n / 0x1_0000_0000)
  }

  function FromLittleEndian64(s: seq<Byte>): UInt64
    requires |s| == 8
  {
    var low: int, high: int := FromLittleEndian32(s[..4]), FromLittleEndian32(s[4..]);
    low + 0x1_0000_0000 * high
  }

  lemma LittleEndian64RoundTrip(n: UInt64)
    ensures FromLittleEndian64(LittleEndian64(n)) == n
  {
    var s := LittleEndian64(n);
    assert s[..4] == LittleEndian32(n % 0x1_0000_0000);
    assert s[4..] == LittleEndian32(n / 0x1_0000_0000);
    LittleEndian32RoundTrip(n % 0x1_0000_0000);
    LittleEndian32RoundTrip(n / 0x1_0000_0000);
  }

  /** Eight bytes are read least significant first. */
  lemma FromLittleEndian64Means(s: seq<Byte>)
    requires |s| == 8
    ensures FromLittleEndian64(s) == BytesValue(s)
  {
    Powers();
    var a := s[..4];
    FromLittleEndian32Means(a);
    FromLittleEndian32Means(s[4..]);
    Four(s[4], s[5], s[6], s[7]);
    BytesValueLast(a, s[4]);
    BytesValueLast(a + [s[4]], s[5]);
    BytesValueLast(a + [s[4]] + [s[5]], s[6]);
    BytesValueLast(a + [s[4]] + [s[5]] + [s[6]], s[7]);
    assert s == a + [s[4]] + [s[5]] + [s[6]] + [s[7]];
    assert s[4..] == [s[4], s[5], s[6], s[7]];
  }

  /** The bytes of a price, or of any other fixed-width value, are written least significant first. */
  lemma LittleEndianMeans(n: UInt32, m: UInt64)
    ensures BytesValue(LittleEndian32(n)) == n
    ensures BytesValue(LittleEndian64(m)) == m
  {
    LittleEndian32RoundTrip(n);
    FromLittleEndian32Means(LittleEndian32(n));
    LittleEndian64RoundTrip(m);
    FromLittleEndian64Means(LittleEndian64(m));
  }

  /** `memcpy` into a buffer: copies `src` to `dst` at index `at` and returns the index behind it. */
  method Copy(src: seq<Byte>, dst: array<Byte>, at: nat) returns (end: nat)
    requires at + |src| <= dst.Length
    modifies dst
    ensures end == at + |src|
    ensures dst[..] == old(dst[..at]) + src + old(dst[at + |src|..])
  {
    for i := 0 to |src|
      invariant dst[..] == old(dst[..at]) + src[..i] + old(dst[at + i..])
    {
      ghost var before := dst[..];
      dst[at + i] := src[i];
      assert dst[..] == before[at + i := src[i]];
      assert src[..i + 1] == src[..i] + [src[i]];
    }
    assert src[..|src|] == src;
    end := at + |src|;
  }
}
