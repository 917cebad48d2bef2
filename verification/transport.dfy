/** The part of the Firmata 7-bit transport the sysex handlers depend on.
    Arguments arrive as 7-bit bytes; the handlers derive how many 8-bit
    bytes they hold and decode them in place with Encoder7Bit.readBinary.
    The decoding itself belongs to Encoder7Bit and is a parameter here:
    a `Decoder` gives byte `i` of the decoded payload as a function of the
    raw 7-bit arguments. */
module Transport {
  import opened Bytes

  type Decoder = (seq<byte>, nat) -> byte

  /** `((argc - 2) * 7) >> 3`: the number of whole 8-bit bytes carried by
      the argc - 2 seven-bit data bytes that follow subcommand and pin. */
  function PayloadLength(argc: nat): (n: nat)
    requires argc >= 2
    ensures n <= argc - 2
  {
    ((argc - 2) * 7) / 8
  }

  /** The derived length is zero exactly when at most one data byte
      follows, it is 2 for three data bytes, and for any `byte` argument
      count it fits in the `byte` the handlers store it in. */
  lemma PayloadLengthFacts(argc: nat)
    requires argc >= 2
    ensures PayloadLength(argc) * 8 <= (argc - 2) * 7 < (PayloadLength(argc) + 1) * 8
    ensures PayloadLength(argc) == 0 <==> argc <= 3
    ensures argc == 5 ==> PayloadLength(argc) == 2
    ensures argc < 256 ==> PayloadLength(argc) < 256
  {
  }

  /** The argument buffer after `Encoder7Bit.readBinary(length, data, data)`
      with data = argv + 2: the first `length` bytes hold the decoded
      payload, the bytes after them keep their raw 7-bit values. */
  function DecodeInPlace(dec: Decoder, argc: nat, argv: seq<byte>): (buf: seq<byte>)
    requires 2 <= argc <= |argv|
    ensures |buf| == |argv| - 2
    ensures forall i | 0 <= i < PayloadLength(argc) :: buf[i] == dec(argv[2..argc], i)
    ensures forall i | PayloadLength(argc) <= i < |buf| :: buf[i] == argv[2 + i]
  {
    var n := PayloadLength(argc);
    seq(n, i requires 0 <= i < n => dec(argv[2..argc], i)) + argv[2 + n..]
  }

  /** `int value = *(int*) data`: the first two bytes of the buffer as an
      AVR `int`. It reads two bytes even when only one was decoded. */
  function IntValue(buf: seq<byte>): (v: int)
    ensures -32768 <= v < 32768
    ensures v % 65536 == ByteAt(buf, 1) as int * 256 + ByteAt(buf, 0) as int
  {
    AvrInt(ByteAt(buf, 0), ByteAt(buf, 1))
  }
}
