/** The packed tristate codec of the current sender (RCOutputFirmata):
    a tristate symbol '0', 'F' or '1' is stored in two bits, four symbols
    to a byte, the most significant pair first. The fourth two-bit pattern
    is reserved: it is what unrecognised characters are packed into and it
    unpacks to 'X', so that corruption stays visible. */
module Tristate {
  import opened Bytes

  const TRISTATE_0: byte := 0x00
  const TRISTATE_F: byte := 0x01
  const TRISTATE_RESERVED: byte := 0x02
  const TRISTATE_1: byte := 0x03

  /** The character the firmware uses for an unreadable symbol. */
  const INVALID_CHAR: char := 'X'

  /** The character `pack` writes into the unused slots of its last byte:
      the reserved code itself, cast to `char`. */
  const FILL_CHAR: char := 2 as char

  predicate IsTristateChar(c: char) {
    c == '0' || c == 'F' || c == '1'
  }

  /** The two bits of slot `i` of `b`, slot 0 being the most significant
      pair. */
  function Slot(b: byte, i: nat): (bits: byte)
    requires i < 4
    ensures bits <= 3
  {
    match i
    case 0 => (b >> 6) & 3
    case 1 => (b >> 4) & 3
    case 2 => (b >> 2) & 3
    case 3 => b & 3
  }

  /** The mask of slot `i`: bits 7-2i and 6-2i. */
  function SlotMask(i: nat): byte
    requires i < 4
  {
    match i
    case 0 => 0xC0
    case 1 => 0x30
    case 2 => 0x0C
    case 3 => 0x03
  }

  /** The byte whose four slots, most significant first, hold a, b, c, d. */
  function Compose(a: byte, b: byte, c: byte, d: byte): (r: byte)
    requires a <= 3 && b <= 3 && c <= 3 && d <= 3
    ensures Slot(r, 0) == a && Slot(r, 1) == b && Slot(r, 2) == c && Slot(r, 3) == d
  {
    (a << 6) | (b << 4) | (c << 2) | d
  }

  /** A byte is determined by its four slots. */
  lemma SlotsDetermineByte(x: byte, y: byte)
    requires forall i | 0 <= i < 4 :: Slot(x, i) == Slot(y, i)
    ensures x == y
  {
    assert Slot(x, 0) == Slot(y, 0) && Slot(x, 1) == Slot(y, 1);
    assert Slot(x, 2) == Slot(y, 2) && Slot(x, 3) == Slot(y, 3);
    SameSlots(x, y);
  }

  lemma SameSlots(x: byte, y: byte)
    requires Slot(x, 0) == Slot(y, 0) && Slot(x, 1) == Slot(y, 1)
    requires Slot(x, 2) == Slot(y, 2) && Slot(x, 3) == Slot(y, 3)
    ensures x == y
  {
  }

  /** The two-bit code `setTristateBit` stores for a character. */
  function CodeOf(c: char): (bits: byte)
    ensures bits <= 3
    ensures bits == TRISTATE_RESERVED <==> !IsTristateChar(c)
  {
    match c
    case '0' => TRISTATE_0
    case 'F' => TRISTATE_F
    case '1' => TRISTATE_1
    case _ => TRISTATE_RESERVED
  }

  /** The character `getTristateChar` yields for a two-bit value: the
      switch over the three defined codes, with 'X' as the default. */
  function CharOf(bits: byte): (c: char)
    ensures bits <= 3 ==> (c == INVALID_CHAR <==> bits == TRISTATE_RESERVED)
    ensures c == INVALID_CHAR || IsTristateChar(c)
  {
    if bits == TRISTATE_0 then '0'
    else if bits == TRISTATE_F then 'F'
    else if bits == TRISTATE_1 then '1'
    else INVALID_CHAR
  }

  /** The four codes are pairwise distinct and cover every two-bit pattern,
      so decoding two bits is total and encoding then decoding a symbol
      gives it back. */
  lemma CodesArePartition()
    ensures TRISTATE_0 != TRISTATE_F && TRISTATE_0 != TRISTATE_RESERVED && TRISTATE_0 != TRISTATE_1
    ensures TRISTATE_F != TRISTATE_RESERVED && TRISTATE_F != TRISTATE_1 && TRISTATE_RESERVED != TRISTATE_1
    ensures forall c: char :: CharOf(CodeOf(c)) == (if IsTristateChar(c) then c else INVALID_CHAR)
    ensures forall bits: byte | bits <= 3 :: CodeOf(CharOf(bits)) == bits
  {
  }

  /** Decoding two bits and encoding the character gives the bits back. */
  lemma CodeOfCharOf(bits: byte)
    requires bits <= 3
    ensures CodeOf(CharOf(bits)) == bits
  {
  }

  /** `getTristateChar(tristateByte, index)`. The index is masked to 0..3;
      the shift is done after promotion to the 16-bit `int`, so the left
      shift loses no bits before the right shift selects the pair. */
  function GetTristateChar(b: byte, index: nat): (c: char)
    ensures c == CharOf(Slot(b, index % 4))
  {
    var shift: bv16 := 2 * ((index % 4) as bv16);
    var bits: bv16 := (((b as bv16) << shift) >> 6) & 3;
    CharOf(bits as byte)
  }

  /** For an index below 4 no masking takes place. */
  lemma GetSlot(b: byte, i: nat)
    requires i < 4
    ensures GetTristateChar(b, i) == CharOf(Slot(b, i))
  {
    assert i % 4 == i;
  }

  /** `setTristateBit(tristateByte, index, tristateChar)`: clears the two
      bits of slot `index` and stores the code of the character there. */
  function SetTristateBit(b: byte, index: nat, c: char): (r: byte)
    requires index < 4
    ensures Slot(r, index) == CodeOf(c)
    ensures forall j | 0 <= j < 4 && j != index :: Slot(r, j) == Slot(b, j)
    ensures r & !SlotMask(index) == b & !SlotMask(index)
  {
    StoreSlot(b, index, CodeOf(c))
  }

  /** The shift-and-mask step of `setTristateBit`, computed in bytes as
      the firmware does: `shift` is 6 - 2 * index, `clear` is the
      complement of the slot mask, and the two-bit value is or-ed in at
      the shift. */
  function StoreSlot(b: byte, index: nat, bits: byte): (r: byte)
    requires index < 4 && bits <= 3
    ensures Slot(r, index) == bits
    ensures forall j | 0 <= j < 4 && j != index :: Slot(r, j) == Slot(b, j)
    ensures r & !SlotMask(index) == b & !SlotMask(index)
  {
    var shift: byte := 6 - 2 * (index as byte);
    var clear: byte := !((3 as byte) << shift);
    (b & clear) | (bits << shift)
  }

  /** Writing a symbol and reading the same slot back yields the symbol,
      or 'X' for a character that is not a tristate symbol. */
  lemma SetThenGet(b: byte, index: nat, c: char)
    requires index < 4
    ensures GetTristateChar(SetTristateBit(b, index, c), index) == (if IsTristateChar(c) then c else INVALID_CHAR)
  {
    CodesArePartition();
  }

  /** `unpack(tristateBytes, length, tristateCode)`: the characters of the
      first `n` bytes, four per byte, slot 0 first. Their number, 4n, is
      what `unpack` returns. */
  function Unpack(bytes: seq<byte>, n: nat): (code: seq<char>)
    requires n <= |bytes|
    ensures |code| == 4 * n
    ensures forall j, i | 0 <= j < n && 0 <= i < 4 :: code[4 * j + i] == GetTristateChar(bytes[j], i)
  {
    if n == 0 then []
    else
      var b := bytes[n - 1];
      Unpack(bytes, n - 1)
        + [GetTristateChar(b, 0), GetTristateChar(b, 1), GetTristateChar(b, 2), GetTristateChar(b, 3)]
  }

  /** Number of bytes needed for `len` symbols: ceil(len / 4). */
  function PackedLength(len: nat): nat {
    (len + 3) / 4
  }

  /** The character `pack` stores in slot `k`: the symbol itself while
      `k < len`, the reserved fill character in the padding. */
  function SlotChar(code: seq<char>, len: nat, k: nat): char
    requires len <= |code|
  {
    if k < len then code[k] else FILL_CHAR
  }

  /** The packed byte `j` holds for the first `len` symbols of `code`. */
  function PackedByte(code: seq<char>, len: nat, j: nat): byte
    requires len <= |code|
  {
    Compose(CodeOf(SlotChar(code, len, 4 * j)), CodeOf(SlotChar(code, len, 4 * j + 1)),
            CodeOf(SlotChar(code, len, 4 * j + 2)), CodeOf(SlotChar(code, len, 4 * j + 3)))
  }

  /** Both loops of `pack` from counter value `k` on: slot `k` of byte
      `k / 4` is written with `SlotChar`, until `k` reaches the next
      multiple of four at or after `len`. */
  function PackFrom(code: seq<char>, len: nat, out: seq<byte>, k: nat): (r: seq<byte>)
    requires len <= |code| && PackedLength(len) <= |out|
    requires k <= 4 * PackedLength(len)
    ensures |r| == |out|
    ensures forall j, i | 0 <= j < |out| && 0 <= i < 4 ::
      Slot(r[j], i) == (if k <= 4 * j + i < 4 * PackedLength(len)
                        then CodeOf(SlotChar(code, len, 4 * j + i)) else Slot(out[j], i))
    decreases 4 * PackedLength(len) - k
  {
    if k == 4 * PackedLength(len) then out
    else
      var out' := out[k / 4 := SetTristateBit(out[k / 4], k % 4, SlotChar(code, len, k))];
      PackFrom(code, len, out', k + 1)
  }

  datatype Packed = Packed(bytes: seq<byte>, count: nat)

  /** `pack(tristateCode, length, tristateBytes)`: the first `len` symbols
      packed into `out`, the last byte padded with the reserved code; the
      count is the number of bytes written. Every byte it touches is
      overwritten in all four slots, so the result does not depend on what
      `out` held there. */
  function Pack(code: seq<char>, len: nat, out: seq<byte>): (p: Packed)
    requires len <= |code| && PackedLength(len) <= |out|
    ensures p.count == PackedLength(len)
    ensures p.count * 4 >= len && (p.count == 0 || (p.count - 1) * 4 < len)
    ensures |p.bytes| == |out|
    ensures forall j | 0 <= j < p.count :: p.bytes[j] == PackedByte(code, len, j)
    ensures p.bytes[p.count..] == out[p.count..]
  {
    PackFromStart(code, len, out);
    Packed(PackFrom(code, len, out, 0), PackedLength(len))
  }

  /** Run from counter 0, the loops leave every touched byte equal to its
      packed value and every other byte as it was. */
  lemma PackFromStart(code: seq<char>, len: nat, out: seq<byte>)
    requires len <= |code| && PackedLength(len) <= |out|
    ensures forall j | 0 <= j < PackedLength(len) :: PackFrom(code, len, out, 0)[j] == PackedByte(code, len, j)
    ensures forall j | PackedLength(len) <= j < |out| :: PackFrom(code, len, out, 0)[j] == out[j]
  {
    forall j | 0 <= j < |out|
      ensures PackFrom(code, len, out, 0)[j] == (if j < PackedLength(len) then PackedByte(code, len, j) else out[j])
    {
      PackFromByte(code, len, out, j);
    }
  }

  lemma PackFromByte(code: seq<char>, len: nat, out: seq<byte>, j: nat)
    requires len <= |code| && PackedLength(len) <= |out| && j < |out|
    ensures PackFrom(code, len, out, 0)[j] == (if j < PackedLength(len) then PackedByte(code, len, j) else out[j])
  {
    var r := PackFrom(code, len, out, 0);
    var e := if j < PackedLength(len) then PackedByte(code, len, j) else out[j];
    var n := PackedLength(len);
    assert j < n ==> 4 * j + 3 < 4 * n;
    assert j >= n ==> 4 * j >= 4 * n;
    assert Slot(r[j], 0) == Slot(e, 0);
    assert Slot(r[j], 1) == Slot(e, 1);
    assert Slot(r[j], 2) == Slot(e, 2);
    assert Slot(r[j], 3) == Slot(e, 3);
    SlotsDetermineByte(r[j], e);
  }

  /** Symbol `4 * j + i` of an unpacked sequence is slot `i` of byte `j`. */
  lemma UnpackAt(bytes: seq<byte>, n: nat, j: nat, i: nat)
    requires j < n <= |bytes| && i < 4
    ensures CodeOf(Unpack(bytes, n)[4 * j + i]) == Slot(bytes[j], i)
  {
    assert Unpack(bytes, n)[4 * j + i] == GetTristateChar(bytes[j], i);
    assert i % 4 == i;
    CodesArePartition();
  }

  /** Re-packing the four symbols unpacked from byte `j` gives byte `j`. */
  lemma RepackByte(bytes: seq<byte>, n: nat, j: nat)
    requires j < n <= |bytes|
    ensures PackedByte(Unpack(bytes, n), 4 * n, j) == bytes[j]
  {
    var u := Unpack(bytes, n);
    forall i | 0 <= i < 4
      ensures CodeOf(u[4 * j + i]) == Slot(bytes[j], i)
    {
      UnpackAt(bytes, n, j, i);
    }
    PackCodes(u, 4 * n, j, bytes[j]);
  }

  /** Four symbols whose codes are the slots of `x` pack back into `x`. */
  lemma PackCodes(u: seq<char>, len: nat, j: nat, x: byte)
    requires 4 * j + 3 < len <= |u|
    requires forall i | 0 <= i < 4 :: CodeOf(u[4 * j + i]) == Slot(x, i)
    ensures PackedByte(u, len, j) == x
  {
    var p := PackedByte(u, len, j);
    assert CodeOf(u[4 * j + 0]) == Slot(x, 0) && CodeOf(u[4 * j + 1]) == Slot(x, 1);
    assert CodeOf(u[4 * j + 2]) == Slot(x, 2) && CodeOf(u[4 * j + 3]) == Slot(x, 3);
    SameSlots(p, x);
  }

  /** Packing what `unpack` produced from `n` bytes gives back exactly
      those bytes: the reserved pattern unpacks to 'X', which packs to the
      reserved pattern again. This is why the packed-tristate echo equals
      the request. */
  lemma {:induction false} UnpackThenPack(bytes: seq<byte>, n: nat, out: seq<byte>)
    requires n <= |bytes| && n <= |out|
    ensures Pack(Unpack(bytes, n), 4 * n, out).count == n
    ensures forall j | 0 <= j < n :: Pack(Unpack(bytes, n), 4 * n, out).bytes[j] == bytes[j]
  {
    forall j | 0 <= j < n
      ensures Pack(Unpack(bytes, n), 4 * n, out).bytes[j] == bytes[j]
    {
      RepackAt(bytes, n, out, j);
    }
  }

  lemma RepackAt(bytes: seq<byte>, n: nat, out: seq<byte>, j: nat)
    requires j < n <= |bytes| && n <= |out|
    ensures Pack(Unpack(bytes, n), 4 * n, out).bytes[j] == bytes[j]
  {
    RepackByte(bytes, n, j);
  }

  /** Slot `i` of packed byte `j` reads back as the symbol packed there,
      or 'X' in the padding. */
  lemma PackedSlotReadsBack(code: seq<char>, len: nat, j: nat, i: nat)
    requires len <= |code| && i < 4
    requires forall k | 0 <= k < len :: IsTristateChar(code[k])
    ensures GetTristateChar(PackedByte(code, len, j), i)
      == (if 4 * j + i < len then code[4 * j + i] else INVALID_CHAR)
  {
    CodesArePartition();
    var b := PackedByte(code, len, j);
    assert Slot(b, i) == CodeOf(SlotChar(code, len, 4 * j + i));
  }

  /** Unpacking what `pack` produced from tristate symbols gives the
      symbols back, followed by 'X' in the padding slots. */
  lemma {:induction false} PackThenUnpack(code: seq<char>, len: nat, out: seq<byte>)
    requires len <= |code| && PackedLength(len) <= |out|
    requires forall k | 0 <= k < len :: IsTristateChar(code[k])
    ensures forall k | 0 <= k < len :: Unpack(Pack(code, len, out).bytes, PackedLength(len))[k] == code[k]
    ensures forall k | len <= k < 4 * PackedLength(len) ::
      Unpack(Pack(code, len, out).bytes, PackedLength(len))[k] == INVALID_CHAR
  {
    forall k | 0 <= k < 4 * PackedLength(len)
      ensures Unpack(Pack(code, len, out).bytes, PackedLength(len))[k] == (if k < len then code[k] else INVALID_CHAR)
    {
      var j, i := k / 4, k % 4;
      assert 4 * j + i == k && j < PackedLength(len);
      PackedSymbolAt(code, len, out, j, i);
    }
  }

  /** Symbol `4 * j + i` of the unpacked packing. */
  lemma PackedSymbolAt(code: seq<char>, len: nat, out: seq<byte>, j: nat, i: nat)
    requires len <= |code| && PackedLength(len) <= |out| && j < PackedLength(len) && i < 4
    requires forall k | 0 <= k < len :: IsTristateChar(code[k])
    ensures Unpack(Pack(code, len, out).bytes, PackedLength(len))[4 * j + i]
      == (if 4 * j + i < len then code[4 * j + i] else INVALID_CHAR)
  {
    var p := Pack(code, len, out);
    assert Unpack(p.bytes, PackedLength(len))[4 * j + i] == GetTristateChar(p.bytes[j], i);
    assert p.bytes[j] == PackedByte(code, len, j);
    PackedSlotReadsBack(code, len, j, i);
  }

  /** The byte 0x34 unpacks to the symbols "01F0". */
  lemma UnpackExample34()
    ensures Unpack([0x34], 1) == ['0', '1', 'F', '0']
  {
    var u := Unpack([0x34], 1);
    assert u[0] == GetTristateChar(0x34, 0) && u[1] == GetTristateChar(0x34, 1);
    assert u[2] == GetTristateChar(0x34, 2) && u[3] == GetTristateChar(0x34, 3);
  }

  /** The symbols "01F0" pack into the single byte 0x34, whatever the
      buffer held before. */
  lemma PackExample01F0(old0: byte)
    ensures Pack(['0', '1', 'F', '0'], 4, [old0]).bytes == [0x34]
  {
    var code := ['0', '1', 'F', '0'];
    var p := Pack(code, 4, [old0]);
    assert p.bytes[0] == PackedByte(code, 4, 0);
    assert SlotChar(code, 4, 0) == '0' && SlotChar(code, 4, 1) == '1';
    assert SlotChar(code, 4, 2) == 'F' && SlotChar(code, 4, 3) == '0';
    assert PackedByte(code, 4, 0) == Compose(0, 3, 1, 0) == 0x34;
    assert p.bytes == [p.bytes[0]];
  }
}

/** The byte-wide counters of `unpack` and `pack` as written. Both count
    with a `byte`, so their results are reduced modulo 256. */
module TristateCounters {
  import opened Bytes
  import opened Tristate

  /** `count++` on a `byte`: 255 wraps to 0. */
  function Inc(count: byte): (next: byte)
    ensures count as int < 255 ==> next as int == count as int + 1
    ensures count as int == 255 ==> next as int == 0
  {
    count + 1
  }

  /** A byte counter holding x modulo 256 holds x + 1 modulo 256 after
      one increment. */
  lemma IncModulo(c: byte, x: nat)
    requires c as int == x % 256
    ensures Inc(c) as int == (x + 1) % 256
  {
  }

  /** The value `unpack` returns for `n` bytes: its `byte charCount` is
      incremented four times per byte, so it is 4n reduced modulo 256. */
  function UnpackCountAsWritten(n: nat): (count: byte)
    ensures count as int == (4 * n) % 256
  {
    if n == 0 then 0
    else
      var c0 := UnpackCountAsWritten(n - 1);
      var x := 4 * (n - 1);
      IncModulo(c0, x);
      var c1 := Inc(c0);
      IncModulo(c1, x + 1);
      var c2 := Inc(c1);
      IncModulo(c2, x + 2);
      var c3 := Inc(c2);
      IncModulo(c3, x + 3);
      Inc(c3)
  }

  /** The first loop of `pack`: `count` steps up to `length`, which as a
      `byte` itself it reaches without wrapping. */
  function CountTo(count: byte, length: byte): (last: byte)
    requires count as int <= length as int
    ensures last == length
    decreases length as int - count as int
  {
    if count == length then count
    else CountTo(Inc(count), length)
  }

  /** The fill loop of `pack`: `count` steps on until its two low bits are
      zero, wrapping from 255 to 0. It ends at the next multiple of four,
      reduced modulo 256. */
  function FillTo(count: byte): (last: byte)
    ensures last as int == (4 * PackedLength(count as int)) % 256
    decreases (4 - count as int % 4) % 4
  {
    LowBits(count);
    if count & 3 == 0 then
      FillDone(count as int);
      count
    else
      FillStep(count as int);
      IncModulo(count, count as int);
      FillTo(Inc(count))
  }

  /** The two low bits of a byte are its residue modulo 4. */
  lemma LowBits(c: byte)
    ensures (c & 3) as int == c as int % 4
  {
  }

  lemma FillDone(c: nat)
    requires c < 256 && c % 4 == 0
    ensures (4 * PackedLength(c)) % 256 == c
  {
    assert PackedLength(c) == c / 4;
  }

  /** One step of the fill loop keeps the next multiple of four. */
  lemma FillStep(c: nat)
    requires c < 256 && c % 4 != 0
    ensures ((c + 1) % 256) % 4 == (c % 4 + 1) % 4
    ensures (4 * PackedLength((c + 1) % 256)) % 256 == (4 * PackedLength(c)) % 256
  {
    if c == 255 {
      assert PackedLength(255) == 64;
    } else {
      var q, r := c / 4, c % 4;
      assert c == 4 * q + r && 1 <= r <= 3;
      assert (c + 1) % 256 == c + 1;
      assert PackedLength(c) == q + 1;
      assert PackedLength(c + 1) == q + 1;
    }
  }

  /** The value `pack` returns for `len` symbols, `len` being a `byte`: its
      `byte count` runs to `len`, then on to the next multiple of four,
      and is divided by four. Up to 252 symbols that is the number of
      bytes written; from 253 on the counter wraps and it is 0. */
  function PackCountAsWritten(len: byte): (count: nat)
    ensures len as int <= 252 ==> count == PackedLength(len as int)
    ensures 252 < len as int ==> count == 0
  {
    var last: int := FillTo(CountTo(0, len)) as int;
    PackCountResidue(len as int);
    last / 4
  }

  lemma PackCountResidue(len: nat)
    requires len < 256
    ensures len <= 252 ==> (4 * PackedLength(len)) % 256 / 4 == PackedLength(len)
    ensures 252 < len ==> (4 * PackedLength(len)) % 256 == 0
  {
    var p := PackedLength(len);
    if len <= 252 {
      assert p <= 63;
      assert (4 * p) % 256 == 4 * p;
    } else {
      assert p == 64;
    }
  }

  /** Below the wrap-around the counters agree with the lengths `Unpack`
      and `Pack` produce. */
  lemma CountersAgreeBelowWrap(n: nat, len: byte)
    ensures 4 * n < 256 ==> UnpackCountAsWritten(n) as int == 4 * n
    ensures len as int <= 252 ==> PackCountAsWritten(len) == PackedLength(len as int)
  {
  }

  /** Unpacking any non-zero multiple of 64 bytes writes at least 256
      symbols but reports 0. */
  lemma UnpackCountWraps(bytes: seq<byte>, n: nat)
    requires 64 <= n <= |bytes| && n % 64 == 0
    ensures |Unpack(bytes, n)| == 4 * n >= 256
    ensures UnpackCountAsWritten(n) == 0
  {
    var k := n / 64;
    assert 4 * n == 256 * k;
    MultipleMod256(k);
  }

  lemma MultipleMod256(k: nat)
    ensures (256 * k) % 256 == 0
  {
    if k > 0 {
      MultipleMod256(k - 1);
      assert 256 * k == 256 * (k - 1) + 256;
    }
  }

  /** The byte whose four symbols end up in block `j` (symbols 4j to
      4j + 3) of the array `unpack` fills from `n` bytes: symbol writes
      land at their index modulo 256, so block j is last written by the
      last byte before `n` whose position is j modulo 64. */
  function LastInBlock(j: nat, n: nat): (m: nat)
    requires j < n && j < 64
    ensures m < n && m % 64 == j && n <= m + 64
  {
    j + 64 * ((n - 1 - j) / 64)
  }

  /** Up to 64 bytes no block is written twice: block j holds byte j. */
  lemma LastInBlockBelow(j: nat, n: nat)
    requires j < n <= 64
    ensures LastInBlock(j, n) == j
  {
    var m := LastInBlock(j, n);
    assert m < 64;
    assert m % 64 == m;
  }

  /** Two numbers less than 64 apart with the same residue are equal. */
  lemma SameResidue(a: nat, b: nat)
    requires a % 64 == b % 64 && a < b + 64 && b < a + 64
    ensures a == b
  {
    var qa, qb := a / 64, b / 64;
    assert a == 64 * qa + a % 64 && b == 64 * qb + b % 64;
    assert -64 < 64 * (qa - qb) < 64;
  }

  /** Block `j` is rewritten by byte n - 1 exactly when j is n - 1 modulo
      64; otherwise it keeps the byte it had after n - 1 bytes. */
  lemma LastInBlockStep(j: nat, n: nat)
    requires j < n && j < 64
    ensures j == (n - 1) % 64 ==> LastInBlock(j, n) == n - 1
    ensures j != (n - 1) % 64 ==> j < n - 1 && LastInBlock(j, n) == LastInBlock(j, n - 1)
  {
    var m := LastInBlock(j, n);
    if j == (n - 1) % 64 {
      SameResidue(m, n - 1);
    } else {
      if m == n - 1 {
        assert false;
      }
      var m' := LastInBlock(j, n - 1);
      SameResidue(m, m');
    }
  }

  /** The array index of the first symbol of byte n - 1. */
  lemma WrappedIndex(n: nat)
    requires n >= 1
    ensures (4 * (n - 1)) % 256 == 4 * ((n - 1) % 64)
  {
    var q, r := (n - 1) / 64, (n - 1) % 64;
    assert 4 * (n - 1) == 256 * q + 4 * r;
  }

  /** Every block below 64 and below `n` of `code` holds the symbols of the
      last byte that wrote it. */
  predicate LastBlocks(bytes: seq<byte>, n: nat, code: seq<char>)
    requires n <= |bytes| && 4 * n <= |code|
  {
    forall j, i | 0 <= j < n && j < 64 && 0 <= i < 4 ::
      code[4 * j + i] == GetTristateChar(bytes[LastInBlock(j, n)], i)
  }

  /** The character array `unpack` fills from the first `n` bytes as
      written: symbol k goes to index k % 256, since `charCount` is a
      byte. `arr` is the array before the loop, whose contents are
      undefined. Blocks below 64 hold the symbols of the last byte that
      wrote them; indices the loop never reaches keep their old value. */
  function UnpackAsWritten(bytes: seq<byte>, n: nat, arr: seq<char>): (code: seq<char>)
    requires n <= |bytes| && 4 * n <= |arr|
    ensures |code| == |arr|
    ensures LastBlocks(bytes, n, code)
    ensures forall k | 0 <= k < |arr| && (4 * n <= k || 256 <= k) :: code[k] == arr[k]
  {
    if n == 0 then arr
    else
      var a := UnpackAsWritten(bytes, n - 1, arr);
      var b := bytes[n - 1];
      var base := (4 * (n - 1)) % 256;
      UnpackStep(bytes, n, a, arr);
      StoreSymbols(a, base, b)
  }

  /** The inner loop of `unpack` for one byte `b`: its four symbols
      stored from index `base` on. */
  function StoreSymbols(a: seq<char>, base: nat, b: byte): (r: seq<char>)
    requires base + 4 <= |a|
    ensures |r| == |a|
    ensures forall i | 0 <= i < 4 :: r[base + i] == GetTristateChar(b, i)
    ensures forall k | 0 <= k < |a| && (k < base || base + 4 <= k) :: r[k] == a[k]
  {
    a[base := GetTristateChar(b, 0)][base + 1 := GetTristateChar(b, 1)]
     [base + 2 := GetTristateChar(b, 2)][base + 3 := GetTristateChar(b, 3)]
  }

  /** Unpacking byte n - 1 into the array the first n - 1 bytes left
      behind keeps both properties of `UnpackAsWritten`. */
  lemma UnpackStep(bytes: seq<byte>, n: nat, a: seq<char>, arr: seq<char>)
    requires 1 <= n <= |bytes| && |a| == |arr| && 4 * n <= |arr|
    requires LastBlocks(bytes, n - 1, a)
    requires forall k | 0 <= k < |arr| && (4 * (n - 1) <= k || 256 <= k) :: a[k] == arr[k]
    ensures LastBlocks(bytes, n, StoreSymbols(a, (4 * (n - 1)) % 256, bytes[n - 1]))
    ensures forall k | 0 <= k < |arr| && (4 * n <= k || 256 <= k) ::
      StoreSymbols(a, (4 * (n - 1)) % 256, bytes[n - 1])[k] == arr[k]
  {
    WrappedIndex(n);
    var base := 4 * ((n - 1) % 64);
    var code := StoreSymbols(a, base, bytes[n - 1]);
    forall j, i | 0 <= j < n && j < 64 && 0 <= i < 4
      ensures code[4 * j + i] == GetTristateChar(bytes[LastInBlock(j, n)], i)
    {
      WrittenBlock(bytes, n - 1, a, j, i);
    }
    UntouchedAbove(a, base, bytes[n - 1], n, arr);
  }

  /** Byte n - 1 writes below index 4n and below 256, so indices at or
      above either bound keep what the array held before the loop. */
  lemma UntouchedAbove(a: seq<char>, base: nat, b: byte, n: nat, arr: seq<char>)
    requires 1 <= n && base == 4 * ((n - 1) % 64) && |a| == |arr| && 4 * n <= |arr|
    requires forall k | 0 <= k < |arr| && (4 * (n - 1) <= k || 256 <= k) :: a[k] == arr[k]
    ensures forall k | 0 <= k < |arr| && (4 * n <= k || 256 <= k) :: StoreSymbols(a, base, b)[k] == arr[k]
  {
    assert base + 4 <= 4 * n && base + 4 <= 256;
  }

  /** Symbol `i` of block `j` after byte `m` has been unpacked into the
      array `a` the first `m` bytes left behind. */
  lemma WrittenBlock(bytes: seq<byte>, m: nat, a: seq<char>, j: nat, i: nat)
    requires m < |bytes| && 4 * (m + 1) <= |a| && j <= m && j < 64 && i < 4
    requires LastBlocks(bytes, m, a)
    ensures StoreSymbols(a, 4 * (m % 64), bytes[m])[4 * j + i]
      == GetTristateChar(bytes[LastInBlock(j, m + 1)], i)
  {
    LastInBlockStep(j, m + 1);
    var base := 4 * (m % 64);
    if j == m % 64 {
      assert 4 * j + i == base + i;
    } else {
      assert 4 * j + i < base || base + 4 <= 4 * j + i;
      assert a[4 * j + i] == GetTristateChar(bytes[LastInBlock(j, m)], i);
    }
  }

  /** Up to 64 bytes the counter does not wrap and the array is exactly
      the unpacked symbols. */
  lemma {:induction false} UnpackAsWrittenBelowWrap(bytes: seq<byte>, n: nat, arr: seq<char>)
    requires n <= |bytes| && |arr| == 4 * n
    ensures n <= 64 ==> UnpackAsWritten(bytes, n, arr) == Unpack(bytes, n)
  {
    if n <= 64 {
      UnpackMatches(bytes, n, arr);
    }
  }

  lemma UnpackMatches(bytes: seq<byte>, n: nat, arr: seq<char>)
    requires n <= |bytes| && n <= 64 && |arr| == 4 * n
    ensures UnpackAsWritten(bytes, n, arr) == Unpack(bytes, n)
  {
    var a, u := UnpackAsWritten(bytes, n, arr), Unpack(bytes, n);
    forall k | 0 <= k < 4 * n
      ensures a[k] == u[k]
    {
      var j, i := k / 4, k % 4;
      assert 4 * j + i == k && j < n;
      UnpackMatchesAt(bytes, n, arr, j, i);
    }
  }

  /** Below the wrap-around block `j` holds the symbols of byte `j`. */
  lemma UnpackMatchesAt(bytes: seq<byte>, n: nat, arr: seq<char>, j: nat, i: nat)
    requires n <= |bytes| && n <= 64 && |arr| == 4 * n && j < n && i < 4
    ensures UnpackAsWritten(bytes, n, arr)[4 * j + i] == Unpack(bytes, n)[4 * j + i]
  {
    assert j % 64 == j;
    SameResidue(LastInBlock(j, n), j);
    assert UnpackAsWritten(bytes, n, arr)[4 * j + i] == GetTristateChar(bytes[j], i);
    assert Unpack(bytes, n)[4 * j + i] == GetTristateChar(bytes[j], i);
  }

  /** Re-packing block `j` of the wrapped array, for the `(4n) % 256`
      symbols `pack` is given, yields the byte that wrote the block last. */
  lemma RepackWrapped(bytes: seq<byte>, n: nat, arr: seq<char>, j: nat)
    requires n <= |bytes| && |arr| == 4 * n && j < n % 64
    ensures PackedByte(UnpackAsWritten(bytes, n, arr), 4 * (n % 64), j) == bytes[LastInBlock(j, n)]
  {
    assert j < n && j < 64;
    var len := 4 * (n % 64);
    assert 4 * j + 3 < len <= 4 * n;
    var u := UnpackAsWritten(bytes, n, arr);
    var x := bytes[LastInBlock(j, n)];
    forall i | 0 <= i < 4
      ensures CodeOf(u[4 * j + i]) == Slot(x, i)
    {
      WrappedCodeAt(bytes, n, arr, j, i);
    }
    PackCodes(u, len, j, x);
  }

  /** The code of a wrapped symbol is the slot it came from. */
  lemma WrappedCodeAt(bytes: seq<byte>, n: nat, arr: seq<char>, j: nat, i: nat)
    requires n <= |bytes| && |arr| == 4 * n && j < n && j < 64 && i < 4
    ensures CodeOf(UnpackAsWritten(bytes, n, arr)[4 * j + i]) == Slot(bytes[LastInBlock(j, n)], i)
  {
    var x := bytes[LastInBlock(j, n)];
    assert UnpackAsWritten(bytes, n, arr)[4 * j + i] == GetTristateChar(x, i);
    GetSlot(x, i);
    CodeOfCharOf(Slot(x, i));
  }

  /** Packing 253 symbols fills 64 bytes but reports 0. */
  lemma PackCountWraps(code: seq<char>, out: seq<byte>)
    requires |code| >= 253 && |out| >= 64
    ensures Pack(code, 253, out).count == 64
    ensures PackCountAsWritten(253) == 0
  {
  }
}
