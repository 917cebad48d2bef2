/** The current receiver feature (RCInputFirmata): sysex command 0x5D with
    the subcommand before the pin. Attach and detach manage the per-pin
    receivers, two value subcommands configure them, and the report loop
    sends one message per received code. */
module RCInput {
  import opened Bytes
  import opened Transport
  import opened Driver
  import opened Registry

  const RCINPUT_DATA: byte := 0x5D

  const RCINPUT_UNKNOWN: byte := 0x00
  const RCINPUT_ATTACH: byte := 0x01
  const RCINPUT_DETACH: byte := 0x02
  const RCINPUT_TOLERANCE: byte := 0x31
  const RCINPUT_ENABLE_RAW_DATA: byte := 0x32
  const RCINPUT_MESSAGE: byte := 0x41

  /** The subcommands, in the order they are declared. */
  const SUBCOMMANDS: seq<byte> := [
    RCINPUT_UNKNOWN, RCINPUT_ATTACH, RCINPUT_DETACH, RCINPUT_TOLERANCE,
    RCINPUT_ENABLE_RAW_DATA, RCINPUT_MESSAGE]

  /** The subcommand codes are pairwise distinct, so neither the rewrite
      to RCINPUT_UNKNOWN nor a report message can be taken for a request
      of another kind. */
  lemma SubcommandsDistinct()
    ensures forall i, j | 0 <= i < j < |SUBCOMMANDS| :: SUBCOMMANDS[i] != SUBCOMMANDS[j]
  {
  }

  /** The "no interrupt" marker as the header defines it, an `int`. */
  const RCINPUT_NO_INTERRUPT: int := -1

  /** The marker after `getInterrupt` stores it in its `byte` result. */
  const NO_INTERRUPT_BYTE: nat := 255

  /** The receiver feature's state: one receiver slot per pin and the
      raw-data reporting flag. */
  datatype Receiver = Receiver(reg: Registry, rawdataEnabled: bool)

  /** Pins wired to external interrupts 0 to 5 on common Arduino boards,
      indexed by interrupt number. */
  const INTERRUPT_PINS: seq<nat> := [2, 3, 21, 20, 19, 18]

  /** The pin is one of INTERRUPT_PINS. */
  predicate HasInterrupt(pin: nat) {
    pin == 2 || pin == 3 || pin == 21 || pin == 20 || pin == 19 || pin == 18
  }

  /** `getInterrupt(pin)`: the interrupt number of the pin, or -1 stored
      in a `byte`, which is 255. */
  function GetInterrupt(pin: nat): (i: nat)
    ensures i < 256
    ensures i == NO_INTERRUPT_BYTE <==> !HasInterrupt(pin)
    ensures i != NO_INTERRUPT_BYTE ==> i < 6
  {
    if pin == 2 then 0
    else if pin == 3 then 1
    else if pin == 21 then 2
    else if pin == 20 then 3
    else if pin == 19 then 4
    else if pin == 18 then 5
    else NO_INTERRUPT_BYTE
  }

  /** The table is a bijection between the six pins and interrupts 0-5,
      and the stored marker is -1 reduced to a byte. */
  lemma InterruptTable(pin: nat)
    ensures forall i | 0 <= i < |INTERRUPT_PINS| :: GetInterrupt(INTERRUPT_PINS[i]) == i
    ensures HasInterrupt(pin) <==> pin in INTERRUPT_PINS
    ensures HasInterrupt(pin) ==> INTERRUPT_PINS[GetInterrupt(pin)] == pin
    ensures NO_INTERRUPT_BYTE == Truncate8(RCINPUT_NO_INTERRUPT)
    ensures NO_INTERRUPT_BYTE != RCINPUT_NO_INTERRUPT
  {
  }

  datatype Attachment = Attachment(success: bool, reg: Registry, calls: seq<DriverCall>)

  /** The common tail of `attach` once an interrupt is known: the pin
      becomes an input, a receiver is created unless one exists, and it is
      enabled on the interrupt. */
  function EnableOn(r: Registry, pin: nat, interrupt: int): (a: Attachment)
    requires Valid(r) && pin < |r.slots|
    ensures a.success && Valid(a.reg) && |a.reg.slots| == |r.slots|
    ensures Attached(a.reg, pin)
    ensures forall p | 0 <= p < |r.slots| && p != pin :: a.reg.slots[p] == r.slots[p]
    ensures Attached(r, pin) ==> a.reg == r
    ensures Attached(r, pin) ==>
      a.calls == [PinModeInput(pin), EnableReceive(r.slots[pin].value, interrupt)]
    ensures !Attached(r, pin) ==>
      var h := a.reg.slots[pin].value;
      && a.calls == [PinModeInput(pin), Create(h), EnableReceive(h, interrupt)]
      && forall p | 0 <= p < |r.slots| && r.slots[p].Some? :: r.slots[p].value != h
  {
    var acq := Acquire(r, pin);
    assert acq.reg.slots[pin].value == acq.handle;
    assert acq.created <==> !Attached(r, pin);
    if acq.created then
      Attachment(true, acq.reg, [PinModeInput(pin), Create(acq.handle), EnableReceive(acq.handle, interrupt)])
    else
      Attachment(true, acq.reg, [PinModeInput(pin), EnableReceive(acq.handle, interrupt)])
  }

  /** `attach(pin)` as written: the `byte` from `getInterrupt` is widened
      to `int` and compared with -1, which it never equals, so every pin
      is accepted and a pin without interrupt is enabled on interrupt 255. */
  function AttachAsWritten(r: Registry, pin: nat): (a: Attachment)
    requires Valid(r) && pin < |r.slots|
    ensures a.success && Valid(a.reg) && |a.reg.slots| == |r.slots|
    ensures Attached(a.reg, pin)
    ensures forall p | 0 <= p < |r.slots| && p != pin :: a.reg.slots[p] == r.slots[p]
    ensures |a.calls| >= 2 && a.calls[0] == PinModeInput(pin)
    ensures a.calls[|a.calls| - 1] == EnableReceive(a.reg.slots[pin].value, GetInterrupt(pin))
    ensures Attached(r, pin) ==>
      a.reg == r && a.calls == [PinModeInput(pin), EnableReceive(r.slots[pin].value, GetInterrupt(pin))]
    ensures !Attached(r, pin) ==>
      var h := a.reg.slots[pin].value;
      && a.calls == [PinModeInput(pin), Create(h), EnableReceive(h, GetInterrupt(pin))]
      && forall p | 0 <= p < |r.slots| && r.slots[p].Some? :: r.slots[p].value != h
  {
    var interrupt: int := GetInterrupt(pin);
    if interrupt == RCINPUT_NO_INTERRUPT then Attachment(false, r, [])
    else EnableOn(r, pin, interrupt)
  }

  /** `attach(pin)` with the marker compared as the byte it is stored in:
      a pin without interrupt is refused and nothing changes. */
  function Attach(r: Registry, pin: nat): (a: Attachment)
    requires Valid(r) && pin < |r.slots|
    ensures Valid(a.reg) && |a.reg.slots| == |r.slots|
    ensures a.success <==> HasInterrupt(pin)
    ensures !a.success ==> a.reg == r && a.calls == []
    ensures a.success ==>
      && Attached(a.reg, pin)
      && 0 <= GetInterrupt(pin) < 6
      && |a.calls| >= 2
      && a.calls[0] == PinModeInput(pin)
      && a.calls[|a.calls| - 1] == EnableReceive(a.reg.slots[pin].value, GetInterrupt(pin))
    ensures forall p | 0 <= p < |r.slots| && p != pin :: a.reg.slots[p] == r.slots[p]
    ensures a.success && Attached(r, pin) ==>
      a.reg == r && a.calls == [PinModeInput(pin), EnableReceive(r.slots[pin].value, GetInterrupt(pin))]
    ensures a.success && !Attached(r, pin) ==>
      var h := a.reg.slots[pin].value;
      && a.calls == [PinModeInput(pin), Create(h), EnableReceive(h, GetInterrupt(pin))]
      && forall p | 0 <= p < |r.slots| && r.slots[p].Some? :: r.slots[p].value != h
  {
    var interrupt := GetInterrupt(pin);
    if interrupt == NO_INTERRUPT_BYTE then Attachment(false, r, [])
    else EnableOn(r, pin, interrupt)
  }

  /** Pin 4 has no external interrupt: as written it is accepted and its
      receiver enabled on interrupt 255; the corrected attach refuses it. */
  lemma AttachAcceptsPinWithoutInterrupt(r: Registry)
    requires Valid(r) && 4 < |r.slots| && !Attached(r, 4)
    ensures AttachAsWritten(r, 4).success
    ensures AttachAsWritten(r, 4).calls
      == [PinModeInput(4), Create(r.next), EnableReceive(r.next, 255)]
    ensures !Attach(r, 4).success && Attach(r, 4).reg == r
  {
  }

  /** A request to attach pin 4, which has no external interrupt: as
      written it is handled, and a receiver is created and enabled on
      interrupt 255; corrected, it is refused without any call, though it
      is still echoed. */
  lemma AttachPin4Request(u: nat -> char, dec: Decoder, st: Receiver)
    requires Valid(st.reg) && 4 < |st.reg.slots| && !Attached(st.reg, 4)
    ensures var o := HandleSysex(AsWritten(u), {}, dec, st, RCINPUT_DATA, 2, [RCINPUT_ATTACH, 4]);
      && o.handled && Attached(o.state.reg, 4)
      && o.calls == [PinModeInput(4), Create(st.reg.next), EnableReceive(st.reg.next, 255)]
    ensures var o := HandleSysex(Corrected, {}, dec, st, RCINPUT_DATA, 2, [RCINPUT_ATTACH, 4]);
      && !o.handled && o.state == st && o.calls == []
      && o.reply == Some(SubcommandFirst(RCINPUT_DATA, RCINPUT_ATTACH, 4, []))
  {
    AttachAcceptsPinWithoutInterrupt(st.reg);
  }

  /** `detach(pin)`: disable and free the receiver, clear the slot. */
  function Detach(r: Registry, pin: nat): (s: Step)
    requires Valid(r) && pin < |r.slots|
    ensures Valid(s.reg) && |s.reg.slots| == |r.slots|
    ensures !Attached(s.reg, pin)
    ensures forall p | 0 <= p < |r.slots| && p != pin :: s.reg.slots[p] == r.slots[p]
    ensures !Attached(r, pin) ==> s == Step(r, [])
    ensures Attached(r, pin) ==>
      s.calls == [DisableReceive(r.slots[pin].value), Destroy(r.slots[pin].value)]
  {
    var d := Release(r, pin);
    match d.freed
    case None => Step(d.reg, [])
    case Some(h) => Step(d.reg, [DisableReceive(h), Destroy(h)])
  }

  /** A refused attach creates nothing, so the detach after it is a no-op;
      an accepted attach followed by a detach restores the table. */
  lemma AttachThenDetach(r: Registry, pin: nat)
    requires Valid(r) && pin < |r.slots| && !Attached(r, pin)
    ensures var a := Attach(r, pin);
      Detach(a.reg, pin).reg.slots == r.slots
    ensures !HasInterrupt(pin) ==> Attach(r, pin).calls + Detach(Attach(r, pin).reg, pin).calls == []
  {
    var a := Attach(r, pin);
    if a.success {
      AcquireThenRelease(r, pin);
    }
  }

  /** The driver calls of `detach` for each receiver `reset()` destroys. */
  function TeardownCalls(entries: seq<Entry>): (calls: seq<DriverCall>)
    ensures |calls| == 2 * |entries|
    ensures forall i | 0 <= i < |entries| ::
      calls[2 * i] == DisableReceive(entries[i].handle) && calls[2 * i + 1] == Destroy(entries[i].handle)
  {
    if entries == [] then []
    else
      var rest := TeardownCalls(entries[1..]);
      assert forall i | 1 <= i < |entries| :: entries[i] == entries[1..][i - 1];
      [DisableReceive(entries[0].handle), Destroy(entries[0].handle)] + rest
  }

  /** `reset()`: detach every interrupt pin and turn raw-data reporting
      off. The calls are exactly the detach calls of the occupied
      interrupt pins, in ascending pin order. */
  function Reset(board: Board, st: Receiver): (o: (Receiver, seq<DriverCall>))
    requires Valid(st.reg)
    ensures Valid(o.0.reg) && |o.0.reg.slots| == |st.reg.slots|
    ensures !o.0.rawdataEnabled
    ensures forall p | p in board.interruptCapable :: !Attached(o.0.reg, p)
    ensures forall p | 0 <= p < |st.reg.slots| && p !in board.interruptCapable :: o.0.reg.slots[p] == st.reg.slots[p]
    ensures forall p | 0 <= p < |st.reg.slots| && p in board.interruptCapable && st.reg.slots[p].Some? ::
      DisableReceive(st.reg.slots[p].value) in o.1 && Destroy(st.reg.slots[p].value) in o.1
    ensures exists f :: Enumerates(st.reg, board.interruptCapable, 0, f) && o.1 == TeardownCalls(f)
  {
    var d := ReleaseAll(st.reg, board.interruptCapable);
    forall p | 0 <= p < |st.reg.slots| && p in board.interruptCapable && st.reg.slots[p].Some?
      ensures DisableReceive(st.reg.slots[p].value) in TeardownCalls(d.freed) && Destroy(st.reg.slots[p].value) in TeardownCalls(d.freed)
    {
      var i :| 0 <= i < |d.freed| && d.freed[i].pin == p;
      TeardownCovers(d.freed, i);
    }
    (Receiver(d.reg, false), TeardownCalls(d.freed))
  }

  /** The teardown of a list of freed entries disables and destroys the
      receiver of every entry. */
  lemma TeardownCovers(freed: seq<Entry>, i: nat)
    requires i < |freed|
    ensures DisableReceive(freed[i].handle) in TeardownCalls(freed)
    ensures Destroy(freed[i].handle) in TeardownCalls(freed)
  {
    var calls := TeardownCalls(freed);
    assert calls[2 * i] == DisableReceive(freed[i].handle);
    assert calls[2 * i + 1] == Destroy(freed[i].handle);
  }

  /** A request refused without a reply, a state change or a driver call. */
  predicate Silent(o: Outcome<Receiver>, st: Receiver) {
    !o.handled && o.reply.None? && o.state == st && o.calls == []
  }

  /** The validation chain of `handleSysex` up to the value switch. */
  predicate Passes(ignored: set<nat>, r: Registry, command: byte, argc: nat, argv: seq<byte>)
    requires argc <= |argv|
  {
    && command == RCINPUT_DATA
    && argc >= 2
    && argv[1] as int !in ignored
    && (argv[0] == RCINPUT_ATTACH || argv[0] == RCINPUT_DETACH
        || (argc >= 3 && Attached(r, argv[1] as int) && PayloadLength(argc) > 0))
  }

  /** `handleSysex(command, argc, argv)`, with `attach` read as `v` says. */
  function HandleSysex(v: Variant, ignored: set<nat>, dec: Decoder, st: Receiver,
                       command: byte, argc: nat, argv: seq<byte>): (o: Outcome<Receiver>)
    requires Valid(st.reg) && argc <= |argv| && argc < 256
    requires command == RCINPUT_DATA && argc >= 2 ==> (argv[1] as int) < |st.reg.slots|
    ensures Valid(o.state.reg) && |o.state.reg.slots| == |st.reg.slots|
    ensures !Passes(ignored, st.reg, command, argc, argv) <==> Silent(o, st)
    ensures o.reply.Some? <==> Passes(ignored, st.reg, command, argc, argv)
    ensures o.reply.Some? ==>
      && o.reply.value.SubcommandFirst? && o.reply.value.command == RCINPUT_DATA
      && o.reply.value.pin == argv[1]
    ensures Passes(ignored, st.reg, command, argc, argv) && (argv[0] == RCINPUT_ATTACH || argv[0] == RCINPUT_DETACH) ==>
      o == Setup(v, st, argv[0], argv[1], argv[1] as int)
    ensures Passes(ignored, st.reg, command, argc, argv) && argv[0] != RCINPUT_ATTACH && argv[0] != RCINPUT_DETACH ==>
      o == Configure(st, argv[0], argv[1], DecodeInPlace(dec, argc, argv), PayloadLength(argc))
  {
    if command != RCINPUT_DATA || argc < 2 then Outcome(false, None, st, [])
    else
      var subcommand := argv[0];
      var pin := argv[1];
      if pin as int in ignored then Outcome(false, None, st, [])
      else if subcommand == RCINPUT_ATTACH || subcommand == RCINPUT_DETACH then Setup(v, st, subcommand, pin, pin as int)
      else if argc < 3 then Outcome(false, None, st, [])
      else if !Attached(st.reg, pin as int) then Outcome(false, None, st, [])
      else
        var length := PayloadLength(argc);
        if length == 0 then Outcome(false, None, st, [])
        else
          Configure(st, subcommand, pin, DecodeInPlace(dec, argc, argv), length)
  }

  /** The attach/detach branch of `handleSysex` for pin `pin`, whose
      byte is `pinByte`: the request is echoed without payload whether or
      not the attach succeeds, and the result is the attach's success. As
      written, every attach succeeds; corrected, an attach on a pin
      without interrupt fails and changes nothing. */
  function Setup(v: Variant, st: Receiver, subcommand: byte, pinByte: byte, pin: nat): (o: Outcome<Receiver>)
    requires Valid(st.reg) && pin < |st.reg.slots|
    requires subcommand == RCINPUT_ATTACH || subcommand == RCINPUT_DETACH
    ensures Valid(o.state.reg) && |o.state.reg.slots| == |st.reg.slots|
    ensures o.reply == Some(SubcommandFirst(RCINPUT_DATA, subcommand, pinByte, []))
    ensures o.state.rawdataEnabled == st.rawdataEnabled
    ensures o.handled == (subcommand == RCINPUT_DETACH || v.AsWritten? || HasInterrupt(pin))
    ensures subcommand == RCINPUT_DETACH ==> !Attached(o.state.reg, pin)
    ensures subcommand == RCINPUT_ATTACH ==>
      Attached(o.state.reg, pin) == (v.AsWritten? || HasInterrupt(pin) || Attached(st.reg, pin))
    ensures subcommand == RCINPUT_ATTACH && o.handled ==>
      && |o.calls| >= 2 && o.calls[0] == PinModeInput(pin)
      && o.calls[|o.calls| - 1] == EnableReceive(o.state.reg.slots[pin].value, GetInterrupt(pin))
    ensures !o.handled ==> o.state == st && o.calls == []
    ensures forall p | 0 <= p < |st.reg.slots| && p != pin :: o.state.reg.slots[p] == st.reg.slots[p]
    ensures subcommand == RCINPUT_DETACH ==>
      o.handled && Step(o.state.reg, o.calls) == Detach(st.reg, pin)
    ensures subcommand == RCINPUT_ATTACH ==>
      var a := if v.AsWritten? then AttachAsWritten(st.reg, pin) else Attach(st.reg, pin);
      o.handled == a.success && o.state.reg == a.reg && o.calls == a.calls
  {
    var reply := Some(SubcommandFirst(RCINPUT_DATA, subcommand, pinByte, []));
    if subcommand == RCINPUT_ATTACH then
      var a := if v.AsWritten? then AttachAsWritten(st.reg, pin) else Attach(st.reg, pin);
      Outcome(a.success, reply, st.(reg := a.reg), a.calls)
    else
      var a := Detach(st.reg, pin);
      Outcome(true, reply, st.(reg := a.reg), a.calls)
  }

  /** The value branch of `handleSysex` on the decoded buffer `data`, of
      which the first `length` bytes were decoded: the tolerance goes to
      the receiver, the raw-data flag becomes whether byte 0 is non-zero,
      and anything else is echoed as RCINPUT_UNKNOWN. */
  function Configure(st: Receiver, subcommand: byte, pin: byte, data: seq<byte>, length: nat): (o: Outcome<Receiver>)
    requires Valid(st.reg) && Attached(st.reg, pin as int) && 1 <= length <= |data|
    ensures o.state.reg == st.reg
    ensures o.handled == (subcommand == RCINPUT_TOLERANCE || subcommand == RCINPUT_ENABLE_RAW_DATA)
    ensures o.reply == Some(SubcommandFirst(RCINPUT_DATA, if o.handled then subcommand else RCINPUT_UNKNOWN,
                                            pin, data[..length]))
    ensures o.state.rawdataEnabled == (if subcommand == RCINPUT_ENABLE_RAW_DATA then data[0] != 0 else st.rawdataEnabled)
    ensures o.calls == (if subcommand == RCINPUT_TOLERANCE
                        then [SetReceiveTolerance(st.reg.slots[pin as int].value, IntValue(data))] else [])
  {
    var echo := Prefix(data, length);
    if subcommand == RCINPUT_TOLERANCE then
      var h := st.reg.slots[pin].value;
      Outcome(true, Some(SubcommandFirst(RCINPUT_DATA, subcommand, pin, echo)), st,
              [SetReceiveTolerance(h, IntValue(data))])
    else if subcommand == RCINPUT_ENABLE_RAW_DATA then
      Outcome(true, Some(SubcommandFirst(RCINPUT_DATA, subcommand, pin, echo)),
              st.(rawdataEnabled := data[0] != 0), [])
    else
      Outcome(false, Some(SubcommandFirst(RCINPUT_DATA, RCINPUT_UNKNOWN, pin, echo)), st, [])
  }

  /** What the driver holds for a receiver whose `available()` is true:
      the decoded value, its bit length, the pulse delay, the protocol and
      the raw timing buffer as the bytes of its `unsigned int` array. The
      interrupt routine may rewrite the raw buffer while it is read, so
      its bytes are whatever the read observed. */
  datatype Reception = Reception(value: bv32, bitCount: bv16, delay: bv16, protocol: bv16, rawdata: seq<byte>)

  /** The 10-byte report block: value, bit count, delay and protocol, each
      most significant byte first. */
  function ReportBlock(rx: Reception): (block: seq<byte>)
    ensures |block| == 10
  {
    [ (rx.value >> 24) as byte, ((rx.value >> 16) & 0xFF) as byte,
      ((rx.value >> 8) & 0xFF) as byte, (rx.value & 0xFF) as byte,
      (rx.bitCount >> 8) as byte, (rx.bitCount & 0xFF) as byte,
      (rx.delay >> 8) as byte, (rx.delay & 0xFF) as byte,
      (rx.protocol >> 8) as byte, (rx.protocol & 0xFF) as byte ]
  }

  function Be16(hi: byte, lo: byte): bv16 {
    (hi as bv16 << 8) | lo as bv16
  }

  function Be32(b0: byte, b1: byte, b2: byte, b3: byte): bv32 {
    (b0 as bv32 << 24) | (b1 as bv32 << 16) | (b2 as bv32 << 8) | b3 as bv32
  }

  /** How a host reads a report block. */
  function ReadReportBlock(block: seq<byte>, rawdata: seq<byte>): Reception
    requires |block| == 10
  {
    Reception(Be32(block[0], block[1], block[2], block[3]), Be16(block[4], block[5]),
              Be16(block[6], block[7]), Be16(block[8], block[9]), rawdata)
  }

  /** Reading a report block gives back the reception it was written
      from, and writing what was read gives back the block: the layout
      loses and invents nothing. */
  lemma ReportBlockRoundTrip(rx: Reception, block: seq<byte>)
    requires |block| == 10
    ensures ReadReportBlock(ReportBlock(rx), rx.rawdata) == rx
    ensures ReportBlock(ReadReportBlock(block, rx.rawdata)) == block
  {
    var b := ReportBlock(rx);
    Be32RoundTrip(rx.value);
    Be16RoundTrip(rx.bitCount);
    Be16RoundTrip(rx.delay);
    Be16RoundTrip(rx.protocol);
    ReadThenWrite(block, rx.rawdata);
  }

  lemma ReadThenWrite(block: seq<byte>, rawdata: seq<byte>)
    requires |block| == 10
    ensures ReportBlock(ReadReportBlock(block, rawdata)) == block
  {
    Be32Bytes(block[0], block[1], block[2], block[3]);
    Be16Bytes(block[4], block[5]);
    Be16Bytes(block[6], block[7]);
    Be16Bytes(block[8], block[9]);
    assert block == [block[0], block[1], block[2], block[3], block[4],
                     block[5], block[6], block[7], block[8], block[9]];
  }

  lemma Be16RoundTrip(w: bv16)
    ensures Be16((w >> 8) as byte, (w & 0xFF) as byte) == w
  {
  }

  lemma Be32RoundTrip(w: bv32)
    ensures Be32((w >> 24) as byte, ((w >> 16) & 0xFF) as byte, ((w >> 8) & 0xFF) as byte, (w & 0xFF) as byte) == w
  {
  }

  lemma Be16Bytes(hi: byte, lo: byte)
    ensures (Be16(hi, lo) >> 8) as byte == hi && (Be16(hi, lo) & 0xFF) as byte == lo
  {
  }

  lemma Be32Bytes(b0: byte, b1: byte, b2: byte, b3: byte)
    ensures var w := Be32(b0, b1, b2, b3);
      && (w >> 24) as byte == b0 && ((w >> 16) & 0xFF) as byte == b1
      && ((w >> 8) & 0xFF) as byte == b2 && (w & 0xFF) as byte == b3
  {
  }

  /** `rawdataLength`: twice RCSWITCH_MAX_CHANGES, stored in a `byte`. */
  function RawLength(maxChanges: nat): (n: nat)
    ensures n <= 2 * maxChanges && n < 256
    ensures 2 * maxChanges < 256 ==> n == 2 * maxChanges
  {
    Truncate8(2 * maxChanges)
  }

  /** The driver's raw buffer holds RCSWITCH_MAX_CHANGES `unsigned int`s. */
  predicate Snapshot(rx: Reception, maxChanges: nat) {
    |rx.rawdata| == 2 * maxChanges
  }

  /** The report message for one reception: the block, then the first
      `rawdataLength` raw bytes if raw-data reporting is on. */
  function ReportMessage(pin: byte, rx: Reception, rawdataEnabled: bool, maxChanges: nat): (m: Message)
    requires Snapshot(rx, maxChanges)
    ensures m.SubcommandFirst? && m.command == RCINPUT_DATA && m.subcommand == RCINPUT_MESSAGE && m.pin == pin
    ensures |m.payload| == 10 + (if rawdataEnabled then RawLength(maxChanges) else 0)
  {
    SubcommandFirst(RCINPUT_DATA, RCINPUT_MESSAGE, pin,
      ReportBlock(rx) + (if rawdataEnabled then rx.rawdata[..RawLength(maxChanges)] else []))
  }

  /** A report payload is the block, then raw bytes from the start of the
      raw buffer: a host reading the first ten bytes gets the reception
      back. */
  lemma ReportPayload(pin: byte, rx: Reception, rawdataEnabled: bool, maxChanges: nat)
    requires Snapshot(rx, maxChanges)
    ensures var m := ReportMessage(pin, rx, rawdataEnabled, maxChanges);
      && ReadReportBlock(m.payload[..10], rx.rawdata) == rx
      && forall i | 10 <= i < |m.payload| :: m.payload[i] == rx.rawdata[i - 10]
  {
    var m := ReportMessage(pin, rx, rawdataEnabled, maxChanges);
    assert m.payload[..10] == ReportBlock(rx);
    ReportBlockRoundTrip(rx, ReportBlock(rx));
  }

  /** A pin number of the pin table as the `byte` the loop counts with. */
  function PinByte(p: nat): byte
    requires p < 256
  {
    p as byte
  }

  /** The events of the report loop for the given receivers, in order: for
      each, `resetAvailable()` and then the report message. */
  function ReportEvents(due: seq<Entry>, received: map<Handle, Reception>,
                        rawdataEnabled: bool, maxChanges: nat): (events: seq<Event>)
    requires forall i | 0 <= i < |due| :: due[i].handle in received && due[i].pin < 256
    requires forall h | h in received :: Snapshot(received[h], maxChanges)
    ensures |events| == 2 * |due|
    ensures forall i | 0 <= i < |due| ::
      && events[2 * i] == Call(ResetAvailable(due[i].handle))
      && events[2 * i + 1] == Emit(ReportMessage(PinByte(due[i].pin), received[due[i].handle], rawdataEnabled, maxChanges))
  {
    var events := seq(2 * |due|, k requires 0 <= k < 2 * |due| => EventAt(due, received, rawdataEnabled, maxChanges, k));
    forall i | 0 <= i < |due|
      ensures events[2 * i] == Call(ResetAvailable(due[i].handle))
      ensures events[2 * i + 1] == Emit(ReportMessage(PinByte(due[i].pin), received[due[i].handle], rawdataEnabled, maxChanges))
    {
      Halves(i);
    }
    events
  }

  /** Event `k` of the report loop: the reset of receiver k / 2 when k is
      even, its report when k is odd. */
  function EventAt(due: seq<Entry>, received: map<Handle, Reception>,
                   rawdataEnabled: bool, maxChanges: nat, k: nat): Event
    requires forall i | 0 <= i < |due| :: due[i].handle in received && due[i].pin < 256
    requires forall h | h in received :: Snapshot(received[h], maxChanges)
    requires k < 2 * |due|
  {
    var x := due[k / 2];
    if k % 2 == 0 then Call(ResetAvailable(x.handle))
    else Emit(ReportMessage(PinByte(x.pin), received[x.handle], rawdataEnabled, maxChanges))
  }

  lemma Halves(i: nat)
    ensures (2 * i) / 2 == i && (2 * i) % 2 == 0
    ensures (2 * i + 1) / 2 == i && (2 * i + 1) % 2 == 1
  {
  }

  /** A pin the report loop reports: an interrupt pin with a receiver
      whose `available()` is true, that is one with a pending reception. */
  predicate Due(board: Board, r: Registry, received: map<Handle, Reception>, p: nat) {
    p in board.interruptCapable && Attached(r, p) && r.slots[p].value in received
  }

  function DuePins(board: Board, r: Registry, received: map<Handle, Reception>): set<nat> {
    set p | p in board.interruptCapable && Due(board, r, received, p)
  }

  /** One run of the report loop: the receivers it polled successfully,
      with their pins, and the driver calls and messages it produced. */
  datatype Polled = Polled(pins: seq<Entry>, events: seq<Event>)

  /** `report()`. `received` maps each receiver whose `available()` is
      true to what it holds. The loop visits the due pins in ascending
      order, resets each receiver's availability and then sends its
      report. */
  function Report(board: Board, st: Receiver, received: map<Handle, Reception>, maxChanges: nat): (out: Polled)
    requires Valid(st.reg)
    requires forall h | h in received :: Snapshot(received[h], maxChanges)
    ensures forall i | 0 <= i < |out.pins| ::
      Due(board, st.reg, received, out.pins[i].pin) && st.reg.slots[out.pins[i].pin] == Some(out.pins[i].handle)
    ensures forall p | 0 <= p < |st.reg.slots| && Due(board, st.reg, received, p) :: Lists(out.pins, p)
    ensures forall i | 0 <= i < |out.pins| - 1 :: out.pins[i].pin < out.pins[i + 1].pin
    ensures |out.events| == 2 * |out.pins|
    ensures forall i | 0 <= i < |out.pins| ::
      && out.pins[i].pin < 256 && out.pins[i].handle in received
      && out.events[2 * i] == Call(ResetAvailable(out.pins[i].handle))
      && out.events[2 * i + 1] == Emit(ReportMessage(PinByte(out.pins[i].pin), received[out.pins[i].handle],
                                                     st.rawdataEnabled, maxChanges))
  {
    var due := EntriesFrom(st.reg, DuePins(board, st.reg, received), 0);
    Polled(due, ReportEvents(due, received, st.rawdataEnabled, maxChanges))
  }
}
