/** Machine-level vocabulary shared by every module: bytes as 8-bit vectors,
    an optional value, and the AVR integer reads the firmware performs on
    its byte buffers.

    Platform assumption (AVR): `int` and `unsigned int` are 16 bits wide,
    `unsigned long` is 32 bits wide, and multi-byte values are stored
    little-endian, so `*(int*) p` reads p[0] as the low byte. */
module Bytes {

  type byte = bv8

  datatype Option<+T> = None | Some(value: T)

  /** Byte `i` of `buf`, where the buffer is taken to be followed by zero
      bytes: the firmware reads fixed offsets of a buffer whose end it
      never checks. */
  function ByteAt(buf: seq<byte>, i: nat): (b: byte)
    ensures i < |buf| ==> b == buf[i]
    ensures i >= |buf| ==> b == 0
  {
    if i < |buf| then buf[i] else 0
  }

  /** The first `n` bytes of `buf`, zero-extended past its end. */
  function Prefix(buf: seq<byte>, n: nat): (r: seq<byte>)
    ensures |r| == n
    ensures n <= |buf| ==> r == buf[..n]
    ensures forall i | 0 <= i < n :: r[i] == ByteAt(buf, i)
  {
    seq(n, i requires 0 <= i < n => ByteAt(buf, i))
  }

  /** Two buffers that agree on their first `n` bytes have the same
      `n`-byte prefix. */
  lemma PrefixOfAgreeing(a: seq<byte>, b: seq<byte>, n: nat)
    requires n <= |a| && n <= |b|
    requires forall j | 0 <= j < n :: a[j] == b[j]
    ensures Prefix(a, n) == b[..n]
  {
    assert a[..n] == b[..n];
  }

  /** C `strlen` on a byte buffer: the index of the first NUL byte, or the
      end of the buffer when it holds none. */
  function StrLen(buf: seq<byte>): (n: nat)
    ensures n <= |buf|
    ensures forall i | 0 <= i < n :: buf[i] != 0
    ensures n < |buf| ==> buf[n] == 0
  {
    if |buf| == 0 || buf[0] == 0 then 0 else 1 + StrLen(buf[1..])
  }

  /** A byte reinterpreted as a `char`, as the casts `(char*) data` do. */
  function ToChar(b: byte): (c: char)
    ensures c as int == b as int
  {
    (b as int) as char
  }

  /** The C string starting at `buf[0]`, as the characters before its NUL. */
  function CString(buf: seq<byte>): (s: seq<char>)
    ensures |s| == StrLen(buf)
    ensures forall i | 0 <= i < |s| :: s[i] as int == buf[i] as int && s[i] != 0 as char
  {
    var n := StrLen(buf);
    seq(n, i requires 0 <= i < n => ToChar(buf[i]))
  }

  /** The value C's conversion of an integer to `byte` leaves: reduction
      modulo 256, so that -1 becomes 255. */
  function Truncate8(x: int): (n: nat)
    ensures n < 256
    ensures 0 <= x < 256 ==> n == x
  {
    x % 256
  }

  /** `*(unsigned int*) p` on AVR: two bytes, little-endian. */
  function Le16(lo: byte, hi: byte): (w: bv16)
    ensures (w & 0xFF) as byte == lo && (w >> 8) as byte == hi
  {
    ((hi as bv16) << 8) | (lo as bv16)
  }

  /** `*(unsigned long*) p` on AVR: four bytes, little-endian. */
  function Le32(b0: byte, b1: byte, b2: byte, b3: byte): (w: bv32)
    ensures (w & 0xFF) as byte == b0 && ((w >> 8) & 0xFF) as byte == b1
    ensures ((w >> 16) & 0xFF) as byte == b2 && (w >> 24) as byte == b3
  {
    ((b3 as bv32) << 24) | ((b2 as bv32) << 16) | ((b1 as bv32) << 8) | (b0 as bv32)
  }

  /** `*(int*) p` on AVR: a signed 16-bit two's-complement value. */
  function AvrInt(lo: byte, hi: byte): (v: int)
    ensures -32768 <= v < 32768
    ensures v % 65536 == hi as int * 256 + lo as int
  {
    var u := hi as int * 256 + lo as int;
    if u >= 32768 then u - 65536 else u
  }
}
