/** The first sender (Firmata/utility/RCSwitchFirmata): sysex command 0x67
    carrying a pin and one tristate symbol per byte, with codes 0, 1 and 2
    for '0', 'F' and '1'. It sends no reply, and its detach frees the
    sender without disabling transmission. */
module LegacySwitch {
  import opened Bytes
  import opened Driver
  import opened Registry
  import Tristate
  import RCOutput

  const RCSWITCH_SEND: byte := 0x67
  const RCSWITCH_PIN: byte := 0x0A

  const TRISTATE_0: byte := 0x00
  const TRISTATE_F: byte := 0x01
  const TRISTATE_1: byte := 0x02

  /** The resolution advertised for the pin mode: 12 tristate symbols of
      7 bits each. */
  const RESOLUTION: byte := 84

  /** `handleCapability(pin)`: the bytes written for the pin. */
  function HandleCapability(board: Board, pin: nat): (out: seq<byte>)
    ensures pin in board.digital <==> |out| > 0
    ensures |out| > 0 ==> out == [RCSWITCH_PIN, RESOLUTION] && RESOLUTION as int == (5 + 5 + 2) * 7
  {
    if pin in board.digital then [RCSWITCH_PIN, RESOLUTION] else []
  }

  /** The character a symbol byte stands for; any other byte leaves its
      slot of the character array unwritten. */
  function SymbolOf(b: byte): (c: Option<char>)
    ensures c.Some? <==> b <= 2
    ensures c.Some? ==> Tristate.IsTristateChar(c.value) && CodeOfSymbol(c.value) == b
  {
    if b == TRISTATE_0 then Some('0')
    else if b == TRISTATE_F then Some('F')
    else if b == TRISTATE_1 then Some('1')
    else None
  }

  /** The code of a tristate symbol in this revision. */
  function CodeOfSymbol(c: char): (b: byte)
    requires Tristate.IsTristateChar(c)
    ensures b <= 2
  {
    if c == '0' then TRISTATE_0 else if c == 'F' then TRISTATE_F else TRISTATE_1
  }

  /** Every symbol has a code that reads back as the symbol, and the code
      of '1' is not the one the current packed format uses. */
  lemma SymbolCodesInverse(c: char)
    ensures Tristate.IsTristateChar(c) ==> SymbolOf(CodeOfSymbol(c)) == Some(c)
    ensures CodeOfSymbol('1') != Tristate.TRISTATE_1
  {
  }

  /** The character array `tristateCode[argc-1]` after the loop: slot i
      holds the symbol of argv[i + 1], or nothing. An argument count of 0
      leaves no slots. */
  function Symbols(argc: nat, argv: seq<byte>): (slots: seq<Option<char>>)
    requires argc <= |argv|
    ensures |slots| == if argc == 0 then 0 else argc - 1
    ensures forall i | 0 <= i < |slots| :: slots[i].Some? <==> argv[i + 1] <= 2
    ensures forall i | 0 <= i < |slots| && slots[i].Some? ::
      Tristate.IsTristateChar(slots[i].value) && CodeOfSymbol(slots[i].value) == argv[i + 1]
  {
    if argc == 0 then [] else seq(argc - 1, i requires 0 <= i < argc - 1 => SymbolOf(argv[i + 1]))
  }

  /** Argument bytes 0, 1, 2 and 3 after the pin fill the slots with '0',
      'F' and '1' and leave the last one unwritten. */
  lemma SymbolsExample(pin: byte)
    ensures Symbols(5, [pin, 0x00, 0x01, 0x02, 0x03]) == [Some('0'), Some('F'), Some('1'), None]
  {
  }

  /** `handleSysex(command, argc, argv)`. The pin byte is read whatever
      the argument count, and the sender is used without a check, so a
      request for a pin that is not ignored needs an attached sender. The
      only effect is one `sendTriState` call on the symbol array. */
  function HandleSysex(ignored: set<nat>, r: Registry, command: byte, argc: nat, argv: seq<byte>): (o: Outcome<Registry>)
    requires Valid(r) && argc <= |argv|
    requires command == RCSWITCH_SEND && ByteAt(argv, 0) as int !in ignored ==> Attached(r, ByteAt(argv, 0) as int)
    ensures o.state == r && o.reply.None?
    ensures o.handled <==> command == RCSWITCH_SEND && ByteAt(argv, 0) as int !in ignored
    ensures !o.handled ==> o.calls == []
    ensures o.handled ==> o.calls == [SendTriStateSlots(r.slots[ByteAt(argv, 0) as int].value, Symbols(argc, argv))]
  {
    if command != RCSWITCH_SEND then Outcome(false, None, r, [])
    else
      var pin: nat := ByteAt(argv, 0) as int;
      if pin in ignored then Outcome(false, None, r, [])
      else Outcome(true, None, r, [SendTriStateSlots(r.slots[pin].value, Symbols(argc, argv))])
  }

  /** `detach(pin)`: free the sender and clear the slot, without
      `disableTransmit()`. */
  function Detach(r: Registry, pin: nat): (s: Step)
    requires Valid(r) && pin < |r.slots|
    ensures Valid(s.reg) && |s.reg.slots| == |r.slots|
    ensures !Attached(s.reg, pin)
    ensures forall p | 0 <= p < |r.slots| && p != pin :: s.reg.slots[p] == r.slots[p]
    ensures !Attached(r, pin) ==> s == Step(r, [])
    ensures Attached(r, pin) ==> s.calls == [Destroy(r.slots[pin].value)]
  {
    var d := Release(r, pin);
    match d.freed
    case None => Step(d.reg, [])
    case Some(h) => Step(d.reg, [Destroy(h)])
  }

  /** `handlePinMode(pin, mode)`: on a digital pin, mode 0x0A attaches a
      sender (as the current sender does) and any other mode detaches it. */
  function HandlePinMode(board: Board, r: Registry, pin: nat, mode: int): (o: (bool, Step))
    requires Valid(r) && pin < |r.slots|
    ensures Valid(o.1.reg) && |o.1.reg.slots| == |r.slots|
    ensures o.0 <==> pin in board.digital && mode == RCSWITCH_PIN as int
    ensures o.0 ==> Attached(o.1.reg, pin)
    ensures pin in board.digital && !o.0 ==> !Attached(o.1.reg, pin)
    ensures pin !in board.digital ==> o.1 == Step(r, [])
    ensures forall p | 0 <= p < |r.slots| && p != pin :: o.1.reg.slots[p] == r.slots[p]
  {
    if pin in board.digital then
      if mode == RCSWITCH_PIN as int then (true, RCOutput.Attach(r, pin))
      else (false, Detach(r, pin))
    else (false, Step(r, []))
  }

  /** The driver calls of `detach` for each sender `reset()` frees. */
  function TeardownCalls(entries: seq<Entry>): (calls: seq<DriverCall>)
    ensures |calls| == |entries|
    ensures forall i | 0 <= i < |entries| :: calls[i] == Destroy(entries[i].handle)
  {
    if entries == [] then []
    else
      var rest := TeardownCalls(entries[1..]);
      assert forall i | 1 <= i < |entries| :: entries[i] == entries[1..][i - 1];
      [Destroy(entries[0].handle)] + rest
  }

  /** `reset()`: detach every digital pin. The calls are exactly the
      destruction of each attached instance, in ascending pin order. */
  function Reset(board: Board, r: Registry): (s: Step)
    requires Valid(r)
    ensures Valid(s.reg) && |s.reg.slots| == |r.slots|
    ensures forall p | p in board.digital :: !Attached(s.reg, p)
    ensures forall p | 0 <= p < |r.slots| && p !in board.digital :: s.reg.slots[p] == r.slots[p]
    ensures forall p | 0 <= p < |r.slots| && p in board.digital && r.slots[p].Some? ::
      Destroy(r.slots[p].value) in s.calls
    ensures forall c | c in s.calls :: c.Destroy?
    ensures exists f :: Enumerates(r, board.digital, 0, f) && s.calls == TeardownCalls(f)
  {
    var d := ReleaseAll(r, board.digital);
    forall p | 0 <= p < |r.slots| && p in board.digital && r.slots[p].Some?
      ensures Destroy(r.slots[p].value) in TeardownCalls(d.freed)
    {
      var i :| 0 <= i < |d.freed| && d.freed[i].pin == p;
      TeardownCovers(d.freed, i);
    }
    Step(d.reg, TeardownCalls(d.freed))
  }

  /** The teardown of a list of freed entries destroys the instance of
      every entry. */
  lemma TeardownCovers(freed: seq<Entry>, i: nat)
    requires i < |freed|
    ensures Destroy(freed[i].handle) in TeardownCalls(freed)
  {
    assert TeardownCalls(freed)[i] == Destroy(freed[i].handle);
  }
}
