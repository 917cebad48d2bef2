/** The collaborators of the sysex handlers, reduced to data: the RCSwitch
    driver calls they make (recorded in order, not performed), the sysex
    messages they send to the host, and the board facts they consult. */
module Driver {
  import opened Bytes

  /** Identity of one `RCSwitch` instance created with `new`. */
  type Handle = nat

  datatype DriverCall =
    | Create(h: Handle)                                // new RCSwitch()
    | Destroy(h: Handle)                               // free(instance)
    | EnableTransmit(h: Handle, pin: nat)
    | DisableTransmit(h: Handle)
    | EnableReceive(h: Handle, interrupt: int)
    | DisableReceive(h: Handle)
    | SetProtocol(h: Handle, value: int)
    | SetPulseLength(h: Handle, value: int)
    | SetRepeatTransmit(h: Handle, value: int)
    | SetReceiveTolerance(h: Handle, value: int)
    | SendTriState(h: Handle, code: seq<char>)
      /** sendTriState on a character array some of whose slots were never
          written (None). */
    | SendTriStateSlots(h: Handle, slots: seq<Option<char>>)
    | SendLong(h: Handle, longCode: bv32, bitCount: bv16)
    | SendString(h: Handle, text: seq<char>)
    | ResetAvailable(h: Handle)
      /** Arduino `pinMode(PIN_TO_DIGITAL(pin), INPUT)`. */
    | PinModeInput(pin: nat)

  /** A sysex message to the host, before 7-bit encoding of its payload.
      The current handlers write the subcommand before the pin; the 2014
      sender writes the pin first. */
  datatype Message =
    | SubcommandFirst(command: byte, subcommand: byte, pin: byte, payload: seq<byte>)
    | PinFirst(command: byte, pin: byte, subcommand: byte, payload: seq<byte>)

  /** The bytes between START_SYSEX and the 7-bit encoded payload. */
  function Header(m: Message): (h: seq<byte>)
    ensures |h| == 3 && h[0] == m.command
  {
    match m
    case SubcommandFirst(c, s, p, _) => [c, s, p]
    case PinFirst(c, p, s, _) => [c, p, s]
  }

  /** Output of the report loop: driver calls and messages, in order. */
  datatype Event = Call(call: DriverCall) | Emit(message: Message)

  /** The result of one `handleSysex` call: its boolean result, the reply
      it sent (if any), the handler's new state and the driver calls made. */
  datatype Outcome<S> = Outcome(handled: bool, reply: Option<Message>, state: S, calls: seq<DriverCall>)

  /** Which reading of a handler the model follows: the code as written,
      or the code with the byte-width defects of `RCInputFirmata::attach`
      and `RCOutputFirmata::unpack` corrected. `uninitialised` gives, by
      index, the contents of a stack array that the code as written reads
      before writing it. */
  datatype Variant = AsWritten(uninitialised: nat -> char) | Corrected

  /** The board macros the handlers consult: IS_PIN_DIGITAL and
      IS_PIN_INTERRUPT, as sets of pin numbers. TOTAL_PINS is the capacity
      of the handler's pin table. */
  datatype Board = Board(digital: set<nat>, interruptCapable: set<nat>)
}
