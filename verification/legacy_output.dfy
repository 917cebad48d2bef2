/** The 2014 sender (Firmata/utility/RCOutputFirmata): sysex command 0x67
    with the pin before the subcommand, tristate codes sent one symbol per
    byte, and a pin mode (0x0A) through which the host attaches senders.
    Its attach, detach and reset are those of the current sender. */
module LegacyOutput {
  import opened Bytes
  import opened Transport
  import opened Driver
  import opened Registry
  import RCOutput

  const SYSEX_COMMAND_RC_DATA: byte := 0x67
  const PINMODE_RC_TRANSMIT: byte := 0x0A

  const SEND_CODE: byte := 0x10
  const SET_PROTOCOL: byte := 0x11
  const SET_PULSE_LENGTH: byte := 0x12
  const SET_REPEAT_TRANSMIT: byte := 0x13

  /** UNKNOWN is not defined by this revision's header; the value of the
      current release is used. */
  const UNKNOWN: byte := 0x00

  const TRISTATE_0: byte := 0x00
  const TRISTATE_F: byte := 0x01
  const TRISTATE_1: byte := 0x03

  /** TRISTATE_RESERVED is not defined by this revision's header; the
      value of the current release is used. */
  const TRISTATE_RESERVED: byte := 0x02

  /** `handleCapability(pin)`: the bytes written for the pin. */
  function HandleCapability(board: Board, pin: nat): (out: seq<byte>)
    ensures pin in board.digital <==> |out| > 0
    ensures |out| > 0 ==> out == [PINMODE_RC_TRANSMIT, 1]
  {
    if pin in board.digital then [PINMODE_RC_TRANSMIT, 1] else []
  }

  /** `handlePinMode(pin, mode)`: on a digital pin, mode 0x0A attaches a
      sender and any other mode detaches it; the result says whether the
      mode was taken. */
  function HandlePinMode(board: Board, r: Registry, pin: nat, mode: int): (o: (bool, Step))
    requires Valid(r) && pin < |r.slots|
    ensures Valid(o.1.reg) && |o.1.reg.slots| == |r.slots|
    ensures o.0 <==> pin in board.digital && mode == PINMODE_RC_TRANSMIT as int
    ensures o.0 ==> Attached(o.1.reg, pin)
    ensures pin in board.digital && !o.0 ==> !Attached(o.1.reg, pin)
    ensures pin !in board.digital ==> o.1 == Step(r, [])
    ensures forall p | 0 <= p < |r.slots| && p != pin :: o.1.reg.slots[p] == r.slots[p]
  {
    if pin in board.digital then
      if mode == PINMODE_RC_TRANSMIT as int then (true, RCOutput.Attach(r, pin))
      else (false, RCOutput.Detach(r, pin))
    else (false, Step(r, []))
  }

  /** `convert(byte*, length, char*)` for one byte. */
  function CharOfCode(b: byte): (c: char)
    ensures c == 'X' <==> b != TRISTATE_0 && b != TRISTATE_F && b != TRISTATE_1
  {
    if b == TRISTATE_0 then '0'
    else if b == TRISTATE_F then 'F'
    else if b == TRISTATE_1 then '1'
    else 'X'
  }

  /** `convert(char*, length, byte*)` for one character. */
  function CodeOfChar(c: char): (b: byte)
    ensures b == TRISTATE_RESERVED <==> c != '0' && c != 'F' && c != '1'
  {
    if c == '0' then TRISTATE_0
    else if c == 'F' then TRISTATE_F
    else if c == '1' then TRISTATE_1
    else TRISTATE_RESERVED
  }

  /** The two conversions are inverse on the three symbols and their
      codes; every other byte comes back as TRISTATE_RESERVED and every
      other character as 'X'. */
  lemma ConversionsInverse(b: byte, c: char)
    ensures CodeOfChar(CharOfCode(b)) == (if b <= 1 || b == 3 then b else TRISTATE_RESERVED)
    ensures CharOfCode(CodeOfChar(c)) == (if c == '0' || c == 'F' || c == '1' then c else 'X')
  {
  }

  /** The first `length` bytes of the buffer as tristate characters. */
  function ToTristate(bytes: seq<byte>, length: nat): (code: seq<char>)
    requires length <= |bytes|
    ensures |code| == length
    ensures forall i | 0 <= i < length :: code[i] == CharOfCode(bytes[i])
  {
    seq(length, i requires 0 <= i < length => CharOfCode(bytes[i]))
  }

  /** The buffer with its first `length` bytes overwritten by the codes of
      the characters. */
  function FromTristate(code: seq<char>, length: nat, out: seq<byte>): (bytes: seq<byte>)
    requires length <= |code| && length <= |out|
    ensures |bytes| == |out|
    ensures forall i | 0 <= i < length :: bytes[i] == CodeOfChar(code[i])
    ensures forall i | length <= i < |out| :: bytes[i] == out[i]
  {
    seq(length, i requires 0 <= i < length => CodeOfChar(code[i])) + out[length..]
  }

  /** Codes 0, 1, 3 and 2 read as "0F1X", and "0F1X" writes back codes
      0, 1, 3 and the reserved 2 over whatever the buffer held. */
  lemma ConvertExample()
    ensures ToTristate([0x00, 0x01, 0x03, 0x02], 4) == "0F1X"
    ensures FromTristate("0F1X", 4, [0x7F, 0x7F, 0x7F, 0x7F]) == [0x00, 0x01, 0x03, 0x02]
  {
  }

  /** Converting to characters and back keeps the three symbol codes,
      turns every other byte into TRISTATE_RESERVED and leaves the rest of
      the buffer alone. */
  lemma {:induction false} ConvertThereAndBack(bytes: seq<byte>, length: nat)
    requires length <= |bytes|
    ensures var back := FromTristate(ToTristate(bytes, length), length, bytes);
      && |back| == |bytes|
      && (forall i | 0 <= i < length ::
            back[i] == (if bytes[i] <= 1 || bytes[i] == 3 then bytes[i] else TRISTATE_RESERVED))
      && back[length..] == bytes[length..]
  {
    var back := FromTristate(ToTristate(bytes, length), length, bytes);
    forall i | 0 <= i < length
      ensures back[i] == (if bytes[i] <= 1 || bytes[i] == 3 then bytes[i] else TRISTATE_RESERVED)
    {
      ConversionsInverse(bytes[i], '0');
    }
  }

  predicate IsSetter(s: byte) {
    s == SET_PROTOCOL || s == SET_PULSE_LENGTH || s == SET_REPEAT_TRANSMIT
  }

  /** A request refused without a reply, a state change or a driver call. */
  predicate Silent(o: Outcome<Registry>, r: Registry) {
    !o.handled && o.reply.None? && o.state == r && o.calls == []
  }

  /** The validation chain of `handleSysex`: the command is 0x67, pin,
      subcommand and at least one value byte are present, the pin is not
      ignored, it has a sender and at least one 8-bit byte was sent. */
  predicate Passes(ignored: set<nat>, r: Registry, command: byte, argc: nat, argv: seq<byte>)
    requires argc <= |argv|
  {
    && command == SYSEX_COMMAND_RC_DATA
    && argc > 2
    && argv[0] as int !in ignored
    && Attached(r, argv[0] as int)
    && PayloadLength(argc) > 0
  }

  /** The reply of the 2014 sender: pin, subcommand, payload. */
  function Reply(pin: byte, subcommand: byte, data: seq<byte>, length: nat): Message {
    PinFirst(SYSEX_COMMAND_RC_DATA, pin, subcommand, Prefix(data, length))
  }

  /** `handleSysex(command, argc, argv)`. A request that passes validation
      is always reported as handled, an unknown subcommand included. */
  function HandleSysex(ignored: set<nat>, dec: Decoder, r: Registry,
                       command: byte, argc: nat, argv: seq<byte>): (o: Outcome<Registry>)
    requires Valid(r) && argc <= |argv| && argc < 256
    requires command == SYSEX_COMMAND_RC_DATA && argc > 2 ==> (argv[0] as int) < |r.slots|
    ensures o.state == r
    ensures !Passes(ignored, r, command, argc, argv) <==> Silent(o, r)
    ensures o.handled <==> Passes(ignored, r, command, argc, argv)
    ensures o.handled ==>
      var n := PayloadLength(argc);
      var data := DecodeInPlace(dec, argc, argv);
      var h := r.slots[argv[0] as int].value;
      && o.reply.Some? && o.reply.value.PinFirst? && o.reply.value.command == SYSEX_COMMAND_RC_DATA
      && o.reply.value.pin == argv[0]
      && o.reply.value.subcommand == (if argv[1] == SEND_CODE || IsSetter(argv[1]) then argv[1] else UNKNOWN)
      && |o.reply.value.payload| == n
      && (argv[1] == SEND_CODE ==>
            && o.calls == [SendTriState(h, ToTristate(data, n))]
            && forall i | 0 <= i < n :: o.reply.value.payload[i] == CodeOfChar(CharOfCode(data[i])))
      && (argv[1] != SEND_CODE ==> o.reply.value.payload == data[..n])
      && (argv[1] == SET_PROTOCOL ==> o.calls == [SetProtocol(h, IntValue(data))])
      && (argv[1] == SET_PULSE_LENGTH ==> o.calls == [SetPulseLength(h, IntValue(data))])
      && (argv[1] == SET_REPEAT_TRANSMIT ==> o.calls == [SetRepeatTransmit(h, IntValue(data))])
      && (argv[1] != SEND_CODE && !IsSetter(argv[1]) ==> o.calls == [])
  {
    if command != SYSEX_COMMAND_RC_DATA || argc <= 2 then Outcome(false, None, r, [])
    else
      var pin := argv[0];
      if pin as int in ignored then Outcome(false, None, r, [])
      else if !Attached(r, pin as int) then Outcome(false, None, r, [])
      else
        var length := PayloadLength(argc);
        if length == 0 then Outcome(false, None, r, [])
        else
          var subcommand := argv[1];
          var data := DecodeInPlace(dec, argc, argv);
          var h := r.slots[pin].value;
          if subcommand == SEND_CODE then
            var code := ToTristate(data, length);
            var back := FromTristate(code, length, data);
            Outcome(true, Some(Reply(pin, subcommand, back, length)), r, [SendTriState(h, code)])
          else
            var value := IntValue(data);
            if subcommand == SET_PROTOCOL then
              Outcome(true, Some(Reply(pin, subcommand, data, length)), r, [SetProtocol(h, value)])
            else if subcommand == SET_PULSE_LENGTH then
              Outcome(true, Some(Reply(pin, subcommand, data, length)), r, [SetPulseLength(h, value)])
            else if subcommand == SET_REPEAT_TRANSMIT then
              Outcome(true, Some(Reply(pin, subcommand, data, length)), r, [SetRepeatTransmit(h, value)])
            else
              Outcome(true, Some(Reply(pin, UNKNOWN, data, length)), r, [])
  }
}
