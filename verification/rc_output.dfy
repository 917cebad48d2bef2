/** The current sender feature (RCOutputFirmata): sysex command 0x5C with
    the subcommand before the pin. Attach and detach manage the per-pin
    senders; every other subcommand needs an attached sender and a
    payload, is routed to one RCSwitch call, and is echoed back with the
    (possibly re-encoded) payload. */
module RCOutput {
  import opened Bytes
  import opened Tristate
  import opened TristateCounters
  import opened Transport
  import opened Driver
  import opened Registry

  const RCOUTPUT_DATA: byte := 0x5C

  const RCOUTPUT_UNKNOWN: byte := 0x00
  const RCOUTPUT_ATTACH: byte := 0x01
  const RCOUTPUT_DETACH: byte := 0x02
  const RCOUTPUT_PROTOCOL: byte := 0x11
  const RCOUTPUT_PULSE_LENGTH: byte := 0x12
  const RCOUTPUT_REPEAT_TRANSMIT: byte := 0x14
  const RCOUTPUT_CODE_TRISTATE: byte := 0x21
  const RCOUTPUT_CODE_LONG: byte := 0x22
  const RCOUTPUT_CODE_CHAR: byte := 0x24
  const RCOUTPUT_CODE_TRISTATE_PACKED: byte := 0x28

  /** The subcommands, in the order they are declared. */
  const SUBCOMMANDS: seq<byte> := [
    RCOUTPUT_UNKNOWN, RCOUTPUT_ATTACH, RCOUTPUT_DETACH, RCOUTPUT_PROTOCOL,
    RCOUTPUT_PULSE_LENGTH, RCOUTPUT_REPEAT_TRANSMIT, RCOUTPUT_CODE_TRISTATE,
    RCOUTPUT_CODE_LONG, RCOUTPUT_CODE_CHAR, RCOUTPUT_CODE_TRISTATE_PACKED]

  /** The subcommands the value switch of `handleSysex` routes. */
  predicate IsValueSubcommand(s: byte) {
    || s == RCOUTPUT_PROTOCOL || s == RCOUTPUT_PULSE_LENGTH || s == RCOUTPUT_REPEAT_TRANSMIT
    || s == RCOUTPUT_CODE_TRISTATE || s == RCOUTPUT_CODE_LONG || s == RCOUTPUT_CODE_CHAR
    || s == RCOUTPUT_CODE_TRISTATE_PACKED
  }

  /** The subcommand codes are pairwise distinct, so the rewrite to
      RCOUTPUT_UNKNOWN can never be mistaken for a real subcommand. */
  lemma SubcommandsDistinct()
    ensures forall i, j | 0 <= i < j < |SUBCOMMANDS| :: SUBCOMMANDS[i] != SUBCOMMANDS[j]
    ensures !IsValueSubcommand(RCOUTPUT_UNKNOWN)
    ensures RCOUTPUT_UNKNOWN != RCOUTPUT_ATTACH && RCOUTPUT_UNKNOWN != RCOUTPUT_DETACH
  {
  }

  /** `attach(pin)`: create a sender if the slot is empty, then enable
      transmission on the pin, whether the sender is new or reused. */
  function Attach(r: Registry, pin: nat): (s: Step)
    requires Valid(r) && pin < |r.slots|
    ensures Valid(s.reg) && |s.reg.slots| == |r.slots|
    ensures Attached(s.reg, pin)
    ensures forall p | 0 <= p < |r.slots| && p != pin :: s.reg.slots[p] == r.slots[p]
    ensures Attached(r, pin) ==> s.reg == r && s.calls == [EnableTransmit(r.slots[pin].value, pin)]
    ensures !Attached(r, pin) ==>
      var h := s.reg.slots[pin].value;
      && s.calls == [Create(h), EnableTransmit(h, pin)]
      && forall p | 0 <= p < |r.slots| && r.slots[p].Some? :: r.slots[p].value != h
  {
    var a := Acquire(r, pin);
    assert a.reg.slots[pin].value == a.handle;
    if a.created then Step(a.reg, [Create(a.handle), EnableTransmit(a.handle, pin)])
    else Step(a.reg, [EnableTransmit(a.handle, pin)])
  }

  /** `detach(pin)`: disable and free the sender, clear the slot; nothing
      happens when the pin has none. */
  function Detach(r: Registry, pin: nat): (s: Step)
    requires Valid(r) && pin < |r.slots|
    ensures Valid(s.reg) && |s.reg.slots| == |r.slots|
    ensures !Attached(s.reg, pin)
    ensures forall p | 0 <= p < |r.slots| && p != pin :: s.reg.slots[p] == r.slots[p]
    ensures !Attached(r, pin) ==> s == Step(r, [])
    ensures Attached(r, pin) ==>
      s.calls == [DisableTransmit(r.slots[pin].value), Destroy(r.slots[pin].value)]
  {
    var d := Release(r, pin);
    match d.freed
    case None => Step(d.reg, [])
    case Some(h) => Step(d.reg, [DisableTransmit(h), Destroy(h)])
  }

  /** Attaching a free pin and detaching it again leaves the table as it
      was and destroys the sender the attach created. */
  lemma AttachThenDetach(r: Registry, pin: nat)
    requires Valid(r) && pin < |r.slots| && !Attached(r, pin)
    ensures Detach(Attach(r, pin).reg, pin).reg.slots == r.slots
    ensures var h := Attach(r, pin).reg.slots[pin].value;
      Attach(r, pin).calls + Detach(Attach(r, pin).reg, pin).calls
        == [Create(h), EnableTransmit(h, pin), DisableTransmit(h), Destroy(h)]
  {
    AcquireThenRelease(r, pin);
  }

  /** The driver calls of `detach` for each sender `reset()` destroys. */
  function TeardownCalls(freed: seq<Entry>): (calls: seq<DriverCall>)
    ensures |calls| == 2 * |freed|
    ensures forall i | 0 <= i < |freed| ::
      calls[2 * i] == DisableTransmit(freed[i].handle) && calls[2 * i + 1] == Destroy(freed[i].handle)
  {
    if freed == [] then []
    else
      var rest := TeardownCalls(freed[1..]);
      assert forall i | 1 <= i < |freed| :: freed[i] == freed[1..][i - 1];
      [DisableTransmit(freed[0].handle), Destroy(freed[0].handle)] + rest
  }

  /** `reset()`: detach every digital pin. The calls are exactly the
      detach calls of the occupied digital pins, in ascending pin order. */
  function Reset(board: Board, r: Registry): (s: Step)
    requires Valid(r)
    ensures Valid(s.reg) && |s.reg.slots| == |r.slots|
    ensures forall p | p in board.digital :: !Attached(s.reg, p)
    ensures forall p | 0 <= p < |r.slots| && p !in board.digital :: s.reg.slots[p] == r.slots[p]
    ensures forall p | 0 <= p < |r.slots| && p in board.digital && r.slots[p].Some? ::
      DisableTransmit(r.slots[p].value) in s.calls && Destroy(r.slots[p].value) in s.calls
    ensures exists f :: Enumerates(r, board.digital, 0, f) && s.calls == TeardownCalls(f)
  {
    var d := ReleaseAll(r, board.digital);
    forall p | 0 <= p < |r.slots| && p in board.digital && r.slots[p].Some?
      ensures DisableTransmit(r.slots[p].value) in TeardownCalls(d.freed) && Destroy(r.slots[p].value) in TeardownCalls(d.freed)
    {
      var i :| 0 <= i < |d.freed| && d.freed[i].pin == p;
      TeardownCovers(d.freed, i);
    }
    Step(d.reg, TeardownCalls(d.freed))
  }

  /** The teardown of a list of freed entries disables and destroys the
      instance of every entry. */
  lemma TeardownCovers(freed: seq<Entry>, i: nat)
    requires i < |freed|
    ensures DisableTransmit(freed[i].handle) in TeardownCalls(freed)
    ensures Destroy(freed[i].handle) in TeardownCalls(freed)
  {
    var calls := TeardownCalls(freed);
    assert calls[2 * i] == DisableTransmit(freed[i].handle);
    assert calls[2 * i + 1] == Destroy(freed[i].handle);
  }

  /** What a routed subcommand leaves behind: the subcommand to echo, the
      number of data bytes to echo, the data buffer and the driver calls. */
  datatype Routed = Routed(subcommand: byte, length: nat, data: seq<byte>, calls: seq<DriverCall>)

  /** `sendTristate(sender, data)`: the data is sent as a C string and
      its `strlen`, truncated to a byte, is the echo length. */
  function TristateRequest(h: Handle, data: seq<byte>): (s: Routed)
    ensures s.calls == [SendTriState(h, CString(data))]
    ensures s.length == StrLen(data) % 256 && s.data == data
    ensures forall i | 0 <= i < s.length :: s.data[i] != 0
  {
    Routed(RCOUTPUT_CODE_TRISTATE, Truncate8(StrLen(data)), data, [SendTriState(h, CString(data))])
  }

  /** `sendString(sender, data)`: as `sendTristate`, with `send(char*)`. */
  function StringRequest(h: Handle, data: seq<byte>): (s: Routed)
    ensures s.calls == [SendString(h, CString(data))]
    ensures s.length == StrLen(data) % 256 && s.data == data
    ensures forall i | 0 <= i < s.length :: s.data[i] != 0
  {
    Routed(RCOUTPUT_CODE_CHAR, Truncate8(StrLen(data)), data, [SendString(h, CString(data))])
  }

  /** `sendLong(sender, data)`: bytes 0-1 are the bit count and bytes 2-5
      the code, both little-endian; six bytes are reported processed. */
  function LongRequest(h: Handle, data: seq<byte>): (s: Routed)
    ensures s.length == 6 && s.data == data && |s.calls| == 1 && s.calls[0].SendLong?
    ensures s.calls[0].h == h
    ensures (s.calls[0].bitCount & 0xFF) as byte == ByteAt(data, 0)
    ensures (s.calls[0].bitCount >> 8) as byte == ByteAt(data, 1)
    ensures (s.calls[0].longCode & 0xFF) as byte == ByteAt(data, 2)
    ensures ((s.calls[0].longCode >> 8) & 0xFF) as byte == ByteAt(data, 3)
    ensures ((s.calls[0].longCode >> 16) & 0xFF) as byte == ByteAt(data, 4)
    ensures (s.calls[0].longCode >> 24) as byte == ByteAt(data, 5)
  {
    var bitCount := Le16(ByteAt(data, 0), ByteAt(data, 1));
    var code := Le32(ByteAt(data, 2), ByteAt(data, 3), ByteAt(data, 4), ByteAt(data, 5));
    Routed(RCOUTPUT_CODE_LONG, 6, data, [SendLong(h, code, bitCount)])
  }

  /** `sendPackedTristate(sender, data, length)`: the `length` packed bytes
      are unpacked into 4 * length symbols, sent, and packed back into
      the data buffer for the echo. The echoed bytes are the request
      bytes. */
  function PackedTristateRequest(h: Handle, data: seq<byte>, length: nat): (s: Routed)
    requires length <= |data|
    ensures s.length == length && |s.data| == |data|
    ensures forall j | 0 <= j < length :: s.data[j] == data[j]
    ensures |s.calls| == 1 && s.calls[0].SendTriState? && s.calls[0].h == h
    ensures |s.calls[0].code| == 4 * length
    ensures forall j, i | 0 <= j < length && 0 <= i < 4 :: s.calls[0].code[4 * j + i] == GetTristateChar(data[j], i)
  {
    var code := Unpack(data, length);
    var p := Pack(code, 4 * length, data);
    UnpackThenPack(data, length, data);
    Routed(RCOUTPUT_CODE_TRISTATE_PACKED, p.count, p.bytes, [SendTriState(h, code)])
  }

  /** The first `n` characters of a stack array that was never written. */
  function Uninitialised(u: nat -> char, n: nat): (a: seq<char>)
    ensures |a| == n && forall k | 0 <= k < n :: a[k] == u(k)
  {
    seq(n, k requires 0 <= k < n => u(k))
  }

  /** The packed tristate request as `v` reads `unpack`. */
  function PackedTristateBy(v: Variant, h: Handle, data: seq<byte>, length: nat): (s: Routed)
    requires length <= |data|
    ensures v.Corrected? ==> s == PackedTristateRequest(h, data, length)
    ensures v.AsWritten? ==>
      s == PackedTristateRequestAsWritten(h, data, length, Uninitialised(v.uninitialised, 4 * length))
  {
    if v.Corrected? then PackedTristateRequest(h, data, length)
    else PackedTristateRequestAsWritten(h, data, length, Uninitialised(v.uninitialised, 4 * length))
  }

  /** The value switch of `handleSysex`: each known subcommand makes its
      one call on the pin's sender and reports how many bytes to echo; an
      unknown subcommand is rewritten to RCOUTPUT_UNKNOWN and calls
      nothing. */
  function Route(v: Variant, subcommand: byte, h: Handle, data: seq<byte>, length: nat): (s: Routed)
    requires length <= |data|
    ensures s.subcommand == (if IsValueSubcommand(subcommand) then subcommand else RCOUTPUT_UNKNOWN)
    ensures !IsValueSubcommand(subcommand) ==> s.calls == [] && s.length == length && s.data == data
    ensures subcommand == RCOUTPUT_PROTOCOL ==>
      s.calls == [SetProtocol(h, IntValue(data))] && s.length == length && s.data == data
    ensures subcommand == RCOUTPUT_PULSE_LENGTH ==>
      s.calls == [SetPulseLength(h, IntValue(data))] && s.length == length && s.data == data
    ensures subcommand == RCOUTPUT_REPEAT_TRANSMIT ==>
      s.calls == [SetRepeatTransmit(h, IntValue(data))] && s.length == length && s.data == data
    ensures subcommand == RCOUTPUT_CODE_TRISTATE ==> s == TristateRequest(h, data)
    ensures subcommand == RCOUTPUT_CODE_LONG ==> s == LongRequest(h, data)
    ensures subcommand == RCOUTPUT_CODE_CHAR ==> s == StringRequest(h, data)
    ensures subcommand == RCOUTPUT_CODE_TRISTATE_PACKED ==> s == PackedTristateBy(v, h, data, length)
    ensures forall c | c in s.calls :: !c.PinModeInput? && c.h == h
  {
    if subcommand == RCOUTPUT_PROTOCOL then Routed(subcommand, length, data, [SetProtocol(h, IntValue(data))])
    else if subcommand == RCOUTPUT_PULSE_LENGTH then Routed(subcommand, length, data, [SetPulseLength(h, IntValue(data))])
    else if subcommand == RCOUTPUT_REPEAT_TRANSMIT then Routed(subcommand, length, data, [SetRepeatTransmit(h, IntValue(data))])
    else if subcommand == RCOUTPUT_CODE_TRISTATE then TristateRequest(h, data)
    else if subcommand == RCOUTPUT_CODE_LONG then LongRequest(h, data)
    else if subcommand == RCOUTPUT_CODE_CHAR then StringRequest(h, data)
    else if subcommand == RCOUTPUT_CODE_TRISTATE_PACKED then PackedTristateBy(v, h, data, length)
    else Routed(RCOUTPUT_UNKNOWN, length, data, [])
  }

  /** A request refused without a reply, a state change or a driver call. */
  predicate Silent(o: Outcome<Registry>, r: Registry) {
    !o.handled && o.reply.None? && o.state == r && o.calls == []
  }

  /** The validation chain of `handleSysex` up to the value switch: the
      command is RCOUTPUT_DATA, subcommand and pin are present, the pin is
      not ignored, and for a non-setup subcommand a sender is attached and
      at least one 8-bit byte was sent. */
  predicate Passes(ignored: set<nat>, r: Registry, command: byte, argc: nat, argv: seq<byte>)
    requires argc <= |argv|
  {
    && command == RCOUTPUT_DATA
    && argc >= 2
    && argv[1] as int !in ignored
    && (argv[0] == RCOUTPUT_ATTACH || argv[0] == RCOUTPUT_DETACH
        || (argc >= 3 && Attached(r, argv[1] as int) && PayloadLength(argc) > 0))
  }

  /** `handleSysex(command, argc, argv)`. `argv` is the host's argument
      buffer, of which the first `argc` bytes were received; `ignored` is
      the set of pins whose mode is PIN_MODE_IGNORE; `dec` is the 7-bit
      decoder; `v` says how `unpack` is read. */
  function HandleSysex(v: Variant, ignored: set<nat>, dec: Decoder, r: Registry,
                       command: byte, argc: nat, argv: seq<byte>): (o: Outcome<Registry>)
    requires Valid(r) && argc <= |argv| && argc < 256
    requires command == RCOUTPUT_DATA && argc >= 2 ==> (argv[1] as int) < |r.slots|
    ensures Valid(o.state) && |o.state.slots| == |r.slots|
    ensures !Passes(ignored, r, command, argc, argv) <==> Silent(o, r)
    ensures o.reply.Some? <==> Passes(ignored, r, command, argc, argv)
    ensures o.reply.Some? ==>
      && o.reply.value.SubcommandFirst? && o.reply.value.command == RCOUTPUT_DATA
      && o.reply.value.pin == argv[1]
    ensures Passes(ignored, r, command, argc, argv) && (argv[0] == RCOUTPUT_ATTACH || argv[0] == RCOUTPUT_DETACH) ==>
      o == Setup(r, argv[0], argv[1], argv[1] as int)
    ensures Passes(ignored, r, command, argc, argv) && argv[0] != RCOUTPUT_ATTACH && argv[0] != RCOUTPUT_DETACH ==>
      o == Dispatch(v, r, argv[0], argv[1], r.slots[argv[1] as int].value, DecodeInPlace(dec, argc, argv), PayloadLength(argc))
  {
    if command != RCOUTPUT_DATA || argc < 2 then Outcome(false, None, r, [])
    else
      var subcommand := argv[0];
      var pin := argv[1];
      if pin as int in ignored then Outcome(false, None, r, [])
      else if subcommand == RCOUTPUT_ATTACH || subcommand == RCOUTPUT_DETACH then
        Setup(r, subcommand, pin, pin as int)
      else if argc < 3 then Outcome(false, None, r, [])
      else if !Attached(r, pin as int) then Outcome(false, None, r, [])
      else
        var length := PayloadLength(argc);
        if length == 0 then Outcome(false, None, r, [])
        else Dispatch(v, r, subcommand, pin, r.slots[pin as int].value, DecodeInPlace(dec, argc, argv), length)
  }

  /** The attach/detach branch of `handleSysex` for pin `pin`, whose byte
      is `pinByte`: always handled, echoed without payload, and only the
      pin's slot changes, by exactly the table change and calls of
      `attach` or `detach`. */
  function Setup(r: Registry, subcommand: byte, pinByte: byte, pin: nat): (o: Outcome<Registry>)
    requires Valid(r) && pin < |r.slots|
    requires subcommand == RCOUTPUT_ATTACH || subcommand == RCOUTPUT_DETACH
    ensures Valid(o.state) && |o.state.slots| == |r.slots|
    ensures o.handled && o.reply == Some(SubcommandFirst(RCOUTPUT_DATA, subcommand, pinByte, []))
    ensures Attached(o.state, pin) == (subcommand == RCOUTPUT_ATTACH)
    ensures forall p | 0 <= p < |r.slots| && p != pin :: o.state.slots[p] == r.slots[p]
    ensures Step(o.state, o.calls) == (if subcommand == RCOUTPUT_ATTACH then Attach(r, pin) else Detach(r, pin))
  {
    var reply := Some(SubcommandFirst(RCOUTPUT_DATA, subcommand, pinByte, []));
    if subcommand == RCOUTPUT_ATTACH then
      var s := Attach(r, pin);
      Outcome(true, reply, s.reg, s.calls)
    else
      var s := Detach(r, pin);
      Outcome(true, reply, s.reg, s.calls)
  }

  /** The value branch of `handleSysex` for the sender `h` of the pin whose
      byte is `pinByte`, on the decoded buffer `data` of which the first
      `length` bytes were decoded: the table is unchanged, the request is
      handled exactly when its subcommand is known, every driver call
      goes to `h`, and the calls and echoed bytes are those of the routed
      request. */
  function Dispatch(v: Variant, r: Registry, subcommand: byte, pinByte: byte, h: Handle, data: seq<byte>, length: nat): (o: Outcome<Registry>)
    requires length <= |data|
    ensures o.state == r
    ensures o.handled == IsValueSubcommand(subcommand)
    ensures o.reply.Some? && o.reply.value.SubcommandFirst? && o.reply.value.command == RCOUTPUT_DATA
    ensures o.reply.value.pin == pinByte
    ensures o.reply.value.subcommand == (if IsValueSubcommand(subcommand) then subcommand else RCOUTPUT_UNKNOWN)
    ensures forall c | c in o.calls :: !c.PinModeInput? && c.h == h
    ensures var rt := Route(v, subcommand, h, data, length);
      o.calls == rt.calls && o.reply.value.payload == Prefix(rt.data, rt.length)
  {
    var routed := Route(v, subcommand, h, data, length);
    var reply := SubcommandFirst(RCOUTPUT_DATA, routed.subcommand, pinByte, Prefix(routed.data, routed.length));
    Outcome(routed.subcommand != RCOUTPUT_UNKNOWN, Some(reply), r, routed.calls)
  }

  /** The fixed prerequisites of the lemmas below: a request for an
      attached sender that passes validation with a non-setup subcommand. */
  predicate ValueRequest(ignored: set<nat>, r: Registry, argc: nat, argv: seq<byte>)
  {
    && Valid(r) && 2 <= argc <= |argv| && argc < 256 && (argv[1] as int) < |r.slots|
    && Passes(ignored, r, RCOUTPUT_DATA, argc, argv)
    && argv[0] != RCOUTPUT_ATTACH && argv[0] != RCOUTPUT_DETACH
  }

  /** The value branch of `handleSysex`, for the lemmas below. */
  lemma ValueBranch(v: Variant, ignored: set<nat>, dec: Decoder, r: Registry, argc: nat, argv: seq<byte>)
    requires ValueRequest(ignored, r, argc, argv)
    ensures var n := PayloadLength(argc);
      var routed := Route(v, argv[0], r.slots[argv[1] as int].value, DecodeInPlace(dec, argc, argv), n);
      HandleSysex(v, ignored, dec, r, RCOUTPUT_DATA, argc, argv)
        == Outcome(routed.subcommand != RCOUTPUT_UNKNOWN,
                   Some(SubcommandFirst(RCOUTPUT_DATA, routed.subcommand, argv[1], Prefix(routed.data, routed.length))),
                   r, routed.calls)
  {
  }

  /** A packed tristate request is handled and sends the 4n unpacked
      symbols and echoes the n decoded request bytes unchanged, so the
      host can compare its request with the echo. As written this holds
      up to 75 arguments, that is below 64 request bytes. */
  lemma PackedTristateEcho(v: Variant, ignored: set<nat>, dec: Decoder, r: Registry, argc: nat, argv: seq<byte>)
    requires ValueRequest(ignored, r, argc, argv) && argv[0] == RCOUTPUT_CODE_TRISTATE_PACKED
    ensures HandleSysex(v, ignored, dec, r, RCOUTPUT_DATA, argc, argv).handled
    ensures v.Corrected? || argc < 76 ==>
      var o := HandleSysex(v, ignored, dec, r, RCOUTPUT_DATA, argc, argv);
      var n := PayloadLength(argc);
      var data := DecodeInPlace(dec, argc, argv);
      && o.reply == Some(SubcommandFirst(RCOUTPUT_DATA, RCOUTPUT_CODE_TRISTATE_PACKED, argv[1], data[..n]))
      && o.calls == [SendTriState(r.slots[argv[1] as int].value, Unpack(data, n))]
  {
    var n := PayloadLength(argc);
    var data := DecodeInPlace(dec, argc, argv);
    var h := r.slots[argv[1] as int].value;
    var routed := Route(v, argv[0], h, data, n);
    ValueBranch(v, ignored, dec, r, argc, argv);
    if v.Corrected? {
      assert routed == PackedTristateRequest(h, data, n);
      PackedEchoIsRequest(h, data, n);
      assert routed.calls == [SendTriState(h, Unpack(data, n))];
    } else if argc < 76 {
      assert (argc - 2) * 7 < 512;
      assert n < 64;
      var stale := Uninitialised(v.uninitialised, 4 * n);
      assert routed == PackedTristateRequestAsWritten(h, data, n, stale);
      PackedAsWrittenBelowWrap(h, data, n, stale);
    }
  }

  /** Below 64 bytes `unpack`'s counter does not wrap, and the packed
      request as written sends and echoes what the corrected one does. */
  lemma PackedAsWrittenBelowWrap(h: Handle, data: seq<byte>, n: nat, stale: seq<char>)
    requires n < 64 && n <= |data| && |stale| == 4 * n
    ensures var s := PackedTristateRequestAsWritten(h, data, n, stale);
      Prefix(s.data, s.length) == data[..n] && s.calls == [SendTriState(h, Unpack(data, n))]
  {
    assert n % 64 == n;
    var s := PackedTristateRequestAsWritten(h, data, n, stale);
    forall j | 0 <= j < n
      ensures s.data[j] == data[j]
    {
      LastInBlockBelow(j, n);
    }
    PrefixOfAgreeing(s.data, data, n);
    assert s.calls == PackedTristateRequest(h, data, n).calls;
  }

  /** A packed tristate request of 76 arguments carries 64 bytes. As
      written it is echoed without payload; corrected, it is echoed with
      all 64 decoded bytes. */
  lemma PackedRequest76(u: nat -> char, ignored: set<nat>, dec: Decoder, r: Registry, argv: seq<byte>)
    requires ValueRequest(ignored, r, 76, argv) && argv[0] == RCOUTPUT_CODE_TRISTATE_PACKED
    ensures HandleSysex(AsWritten(u), ignored, dec, r, RCOUTPUT_DATA, 76, argv).reply
      == Some(SubcommandFirst(RCOUTPUT_DATA, RCOUTPUT_CODE_TRISTATE_PACKED, argv[1], []))
    ensures HandleSysex(Corrected, ignored, dec, r, RCOUTPUT_DATA, 76, argv).reply
      == Some(SubcommandFirst(RCOUTPUT_DATA, RCOUTPUT_CODE_TRISTATE_PACKED, argv[1], DecodeInPlace(dec, 76, argv)[..64]))
  {
    assert PayloadLength(76) == 64;
    var data := DecodeInPlace(dec, 76, argv);
    var h := r.slots[argv[1] as int].value;
    var stale := Uninitialised(u, 256);
    PackedEchoTruncated(h, data, 64, stale);
    ValueBranch(AsWritten(u), ignored, dec, r, 76, argv);
    PackedTristateEcho(Corrected, ignored, dec, r, 76, argv);
    var s := PackedTristateRequestAsWritten(h, data, 64, stale);
    assert Prefix(s.data, s.length) == [];
  }

  lemma PackedEchoIsRequest(h: Handle, data: seq<byte>, n: nat)
    requires n <= |data|
    ensures var s := PackedTristateRequest(h, data, n); Prefix(s.data, s.length) == data[..n]
  {
    var s := PackedTristateRequest(h, data, n);
    PrefixOfAgreeing(s.data, data, n);
  }

  /** A long-code request hands the driver the bit count from bytes 0-1
      and the code from bytes 2-5 of the echo, least significant byte
      first. */
  lemma LongCodeEcho(v: Variant, ignored: set<nat>, dec: Decoder, r: Registry, argc: nat, argv: seq<byte>)
    requires ValueRequest(ignored, r, argc, argv) && argv[0] == RCOUTPUT_CODE_LONG
    ensures var o := HandleSysex(v, ignored, dec, r, RCOUTPUT_DATA, argc, argv);
      var e := o.reply.value.payload;
      && o.handled && |e| == 6 && |o.calls| == 1 && o.calls[0].SendLong?
      && (o.calls[0].bitCount & 0xFF) as byte == e[0] && (o.calls[0].bitCount >> 8) as byte == e[1]
      && (o.calls[0].longCode & 0xFF) as byte == e[2] && ((o.calls[0].longCode >> 8) & 0xFF) as byte == e[3]
      && ((o.calls[0].longCode >> 16) & 0xFF) as byte == e[4] && (o.calls[0].longCode >> 24) as byte == e[5]
  {
  }

  /** A tristate or character request sends the decoded buffer as a C
      string and echoes its bytes up to the first NUL, the count taken
      modulo 256; no echoed byte is NUL. */
  lemma CStringCodeEcho(v: Variant, ignored: set<nat>, dec: Decoder, r: Registry, argc: nat, argv: seq<byte>)
    requires ValueRequest(ignored, r, argc, argv)
    requires argv[0] == RCOUTPUT_CODE_TRISTATE || argv[0] == RCOUTPUT_CODE_CHAR
    ensures var o := HandleSysex(v, ignored, dec, r, RCOUTPUT_DATA, argc, argv);
      var data := DecodeInPlace(dec, argc, argv);
      var h := r.slots[argv[1] as int].value;
      && o.handled
      && o.calls == [if argv[0] == RCOUTPUT_CODE_TRISTATE then SendTriState(h, CString(data)) else SendString(h, CString(data))]
      && o.reply.value.payload == Prefix(data, StrLen(data) % 256)
      && forall i | 0 <= i < |o.reply.value.payload| :: o.reply.value.payload[i] != 0
  {
    ValueBranch(v, ignored, dec, r, argc, argv);
  }

  /** A setter request passes the driver the AVR `int` whose two bytes,
      least significant first, are the first two echoed bytes. */
  lemma SetterEcho(v: Variant, ignored: set<nat>, dec: Decoder, r: Registry, argc: nat, argv: seq<byte>)
    requires ValueRequest(ignored, r, argc, argv)
    requires argv[0] == RCOUTPUT_PROTOCOL || argv[0] == RCOUTPUT_PULSE_LENGTH || argv[0] == RCOUTPUT_REPEAT_TRANSMIT
    requires argc >= 5
    ensures var o := HandleSysex(v, ignored, dec, r, RCOUTPUT_DATA, argc, argv);
      var e := o.reply.value.payload;
      && o.handled && |e| >= 2 && |o.calls| == 1
      && (o.calls[0].SetProtocol? || o.calls[0].SetPulseLength? || o.calls[0].SetRepeatTransmit?)
      && -32768 <= o.calls[0].value < 32768
      && o.calls[0].value % 65536 == e[1] as int * 256 + e[0] as int
  {
    PayloadLengthFacts(argc);
    assert PayloadLength(argc) >= 2;
  }

  /** A set-pulse-length request whose payload decodes to 0x5E 0x01 sets
      a pulse length of 350 and echoes those two bytes. */
  lemma PulseLength350(v: Variant, ignored: set<nat>, dec: Decoder, r: Registry, argv: seq<byte>)
    requires Valid(r) && 5 <= |argv| && argv[0] == RCOUTPUT_PULSE_LENGTH
    requires (argv[1] as int) < |r.slots| && argv[1] as int !in ignored && Attached(r, argv[1] as int)
    requires dec(argv[2..5], 0) == 0x5E && dec(argv[2..5], 1) == 0x01
    ensures var o := HandleSysex(v, ignored, dec, r, RCOUTPUT_DATA, 5, argv);
      && o.handled
      && o.calls == [SetPulseLength(r.slots[argv[1] as int].value, 350)]
      && o.reply == Some(SubcommandFirst(RCOUTPUT_DATA, RCOUTPUT_PULSE_LENGTH, argv[1], [0x5E, 0x01]))
  {
    PayloadLengthFacts(5);
    var data := DecodeInPlace(dec, 5, argv);
    assert data[0] == 0x5E && data[1] == 0x01;
    assert Prefix(data, 2) == [0x5E, 0x01];
  }

  /** An unknown subcommand for an attached pin calls nothing and is
      echoed with RCOUTPUT_UNKNOWN in its place; the handler reports it
      as not handled. */
  lemma UnknownSubcommandEcho(v: Variant, ignored: set<nat>, dec: Decoder, r: Registry, argc: nat, argv: seq<byte>)
    requires ValueRequest(ignored, r, argc, argv) && !IsValueSubcommand(argv[0])
    ensures var o := HandleSysex(v, ignored, dec, r, RCOUTPUT_DATA, argc, argv);
      var n := PayloadLength(argc);
      && !o.handled && o.calls == [] && o.state == r
      && o.reply == Some(SubcommandFirst(RCOUTPUT_DATA, RCOUTPUT_UNKNOWN, argv[1],
                                         DecodeInPlace(dec, argc, argv)[..n]))
  {
  }

  /** Attaching pin 2 of an empty table creates a sender for it and echoes
      the attach. */
  lemma AttachPin2(v: Variant, dec: Decoder, capacity: nat)
    requires 2 < capacity <= 255
    ensures var o := HandleSysex(v, {}, dec, Empty(capacity), RCOUTPUT_DATA, 2, [RCOUTPUT_ATTACH, 2]);
      && o.handled && Attached(o.state, 2)
      && o.reply == Some(SubcommandFirst(RCOUTPUT_DATA, RCOUTPUT_ATTACH, 2, []))
      && o.calls == [Create(0), EnableTransmit(0, 2)]
  {
  }

  /** `sendPackedTristate` as written. `unpack` counts symbols in a
      `byte`: symbol k lands at index k % 256 of the array and the count
      handed to `pack` is 4n modulo 256. For 64 or more bytes the echo is
      n % 64 bytes long and its byte j is the last request byte that
      shares j's position modulo 64; past 256 symbols the array keeps the
      `stale` contents it had before the loop. */
  function PackedTristateRequestAsWritten(h: Handle, data: seq<byte>, length: nat, stale: seq<char>): (s: Routed)
    requires length <= |data| && |stale| == 4 * length
    ensures s.length == length % 64 && |s.data| == |data|
    ensures forall j | 0 <= j < length % 64 :: s.data[j] == data[LastInBlock(j, length)]
    ensures forall j | length % 64 <= j < |data| :: s.data[j] == data[j]
    ensures s.calls == [SendTriState(h, UnpackAsWritten(data, length, stale))]
    ensures length <= 64 ==> s.calls == PackedTristateRequest(h, data, length).calls
  {
    var code := UnpackAsWritten(data, length, stale);
    var counter := UnpackCountAsWritten(length);
    var count: int := counter as int;
    CounterModulo(length);
    assert count == 4 * (length % 64);
    assert count <= |code| && PackedLength(count) <= |data|;
    RepackAsWritten(data, length, stale);
    var p := Pack(code, count, data);
    Routed(RCOUTPUT_CODE_TRISTATE_PACKED, p.count, p.bytes, [SendTriState(h, code)])
  }

  /** What `pack` makes of the wrapped symbols, given the count `unpack`
      reports as written. */
  lemma RepackAsWritten(data: seq<byte>, length: nat, stale: seq<char>)
    requires length <= |data| && |stale| == 4 * length
    ensures var code := UnpackAsWritten(data, length, stale);
      var p := Pack(code, 4 * (length % 64), data);
      && p.count == length % 64 && |p.bytes| == |data|
      && (forall j | 0 <= j < length % 64 :: p.bytes[j] == data[LastInBlock(j, length)])
      && (forall j | length % 64 <= j < |data| :: p.bytes[j] == data[j])
      && (length <= 64 ==> code == Unpack(data, length))
  {
    var code := UnpackAsWritten(data, length, stale);
    CounterModulo(length);
    assert 4 * (length % 64) <= |code|;
    var p := Pack(code, 4 * (length % 64), data);
    forall j | 0 <= j < length % 64
      ensures p.bytes[j] == data[LastInBlock(j, length)]
    {
      RepackWrapped(data, length, stale, j);
    }
    UnpackAsWrittenBelowWrap(data, length, stale);
  }

  lemma CounterModulo(length: nat)
    ensures (4 * length) % 256 == 4 * (length % 64)
    ensures length % 64 <= length
    ensures PackedLength(4 * (length % 64)) == length % 64
  {
    var q, m := length / 64, length % 64;
    assert 4 * length == 256 * q + 4 * m;
    assert 0 <= 4 * m < 256;
  }

  /** 76 arguments decode to 64 bytes. For any non-zero multiple of 64
      bytes the echo is empty as written, where the packed request echoes
      every byte. */
  lemma PackedEchoTruncated(h: Handle, data: seq<byte>, n: nat, stale: seq<char>)
    requires 64 <= n <= |data| && n % 64 == 0 && |stale| == 4 * n
    ensures PayloadLength(76) == 64
    ensures PackedTristateRequestAsWritten(h, data, n, stale).length == 0
    ensures PackedTristateRequest(h, data, n).length == n
  {
  }

  /** 77 arguments decode to 65 bytes. For 65 bytes, or any count one
      past a multiple of 64, the echo as written is the single last byte
      of the request, where the packed request echoes all of them starting
      with byte 0. */
  lemma PackedEchoShifted(h: Handle, data: seq<byte>, n: nat, stale: seq<char>)
    requires 64 < n <= |data| && n % 64 == 1 && |stale| == 4 * n
    ensures PayloadLength(77) == 65
    ensures var s := PackedTristateRequestAsWritten(h, data, n, stale);
      s.length == 1 && s.data[0] == data[n - 1]
    ensures var s := PackedTristateRequest(h, data, n);
      s.length == n && s.data[0] == data[0]
  {
    SameResidue(LastInBlock(0, n), n - 1);
  }
}
