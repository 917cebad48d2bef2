# RCSwitchFirmata in Dafny

RCSwitchFirmata adds 433 MHz remote-control support to the Firmata firmware.
A host sends sysex messages. Those messages attach `RCSwitch` sender or
receiver instances to board pins, configure the instances, and transmit
codes through them. Every accepted request is echoed back to the host so
that it can compare request and echo. The receiver side also reports each
received code from Firmata's report loop.

This project models the protocol core of the firmware as pure Dafny
functions over immutable data, and proves properties of that model:

- `Tristate` — the packed tristate codec of the current sender:
  `getTristateChar`, `setTristateBit`, `unpack` and `pack`. Symbols '0', 'F'
  and '1' are two-bit codes, four to a byte with the most significant pair
  first. The fourth pattern is reserved: it unpacks to 'X', and
  unrecognised characters pack to it.
- `TristateCounters` — the same loops with their byte-wide counters as
  written, including the character array `unpack` fills once its counter
  wraps.
- `Transport` — the length rule for 7-bit encoded arguments and the
  in-place decoding buffer.
- `Driver` — the `RCSwitch` calls, reply messages and board facts, as data.
- `Registry` — the per-pin instance table behind `attach`, `detach` and
  `reset`.
- `RCOutput` — the current sender feature (sysex 0x5C).
- `RCInput` — the current receiver feature (sysex 0x5D), with its report
  loop and raw-data flag.
- `LegacyOutput` — the 2014 sender (sysex 0x67, pin before subcommand, one
  tristate symbol per byte, pin mode 0x0A).
- `LegacySwitch` — the earliest sender (sysex 0x67, a pin followed by
  symbol bytes, no reply).

The 2014 sender's `attach`, `detach` and `reset`
(Firmata/utility/RCOutputFirmata.cpp lines 40-47 and 104-122) have the same
bodies as the current sender's, so `LegacyOutput` reuses `RCOutput.Attach`,
`RCOutput.Detach` and `RCOutput.Reset`. The earliest sender's `attach`
(Firmata/utility/RCSwitchFirmata.cpp lines 71-79) is the current one too, so
`LegacySwitch` reuses only `RCOutput.Attach`. Its `detach` frees the sender
without disabling transmission, and its `reset` calls that `detach`, so
`LegacySwitch.Detach` and `LegacySwitch.Reset` are members of their own.

Bytes are `bv8`. The firmware targets AVR boards, where an `int` is 16
bits, an `unsigned int` is 16 bits and an `unsigned long` is 32 bits, all
little-endian. The model uses those widths wherever a value is stored or
reinterpreted.

Some collaborators are parameters of the model:

- `argv` is the host's argument buffer; the first `argc` bytes of it were
  received.
- `ignored` is the set of pins in PIN_MODE_IGNORE.
- A `Board` gives the IS_PIN_DIGITAL and IS_PIN_INTERRUPT sets.
- `Encoder7Bit.readBinary` is a `Decoder` function.
- The `RCSwitch` driver is the list of calls made on it, and `available()`
  is a map from receivers to what they hold.

The two current handlers take a `Variant`. `AsWritten` follows the code
exactly, byte-wide counters and the widened `getInterrupt` comparison
included. `Corrected` repairs the two defects listed under "## Findings":
a receiver attach is refused on a pin without interrupt, and a packed
tristate request sends all 4n symbols and echoes all n bytes. Every other
branch is the same in both variants. `RCInput.AttachPin4Request` and
`RCOutput.PackedRequest76` show, at the level of a whole request, where the
two differ.

Other points where the model follows the code:

- A request with an unknown value subcommand makes the current handlers
  return false, although it is echoed with the UNKNOWN subcommand
  (`RCOutputFirmata.cpp` line 84, `RCInputFirmata.cpp` line 81). The 2014
  sender returns true in that case.
- Re-packing unpacked bytes gives back exactly the original bytes, the
  reserved pattern included: 'X' packs to the reserved code again
  (`Tristate.UnpackThenPack`). No normalisation happens.

## Model

| member | source | states |
|---|---|---|
| Tristate.GetTristateChar | arduino/libraries/RCSwitchFirmata/src/RCOutputFirmata.cpp:166-182 | the character is the decoding of the two-bit slot `index & 3` of the byte, most significant pair first; the shift is done in 16-bit `int` arithmetic, as after C promotion |
| Tristate.CodesArePartition | arduino/libraries/RCSwitchFirmata/src/RCOutputFirmata.h:28-32 | the four codes are pairwise distinct; decoding then encoding returns every two-bit value; encoding then decoding returns a symbol, or 'X' for any other character |
| Tristate.StoreSlot | arduino/libraries/RCSwitchFirmata/src/RCOutputFirmata.cpp:186-196 | the shift-and-clear step stores the bits in the chosen slot and leaves the other three slots, and every bit outside the slot mask, unchanged |
| Tristate.SetTristateBit | arduino/libraries/RCSwitchFirmata/src/RCOutputFirmata.cpp:184-197 | the slot holds the code of the character (the reserved code for a non-symbol) and the other slots keep their bits |
| Tristate.SetThenGet | arduino/libraries/RCSwitchFirmata/src/RCOutputFirmata.cpp:166-197 | writing a character into a slot and reading that slot back yields the character if it is a symbol, otherwise 'X' |
| Tristate.Unpack | arduino/libraries/RCSwitchFirmata/src/RCOutputFirmata.cpp:137-146 | n bytes give 4n symbols; symbol 4j+i is slot i of byte j |
| Tristate.Pack | arduino/libraries/RCSwitchFirmata/src/RCOutputFirmata.cpp:148-164 | the byte count is ceil(len/4); every written byte is fully determined by its four symbols, the padding slots hold the reserved code, and later bytes are untouched |
| Tristate.UnpackThenPack | arduino/libraries/RCSwitchFirmata/src/RCOutputFirmata.cpp:137-164 | packing the 4n symbols unpacked from n bytes writes n bytes equal to the original ones, whatever they contain |
| Tristate.PackThenUnpack | arduino/libraries/RCSwitchFirmata/src/RCOutputFirmata.cpp:137-164 | unpacking packed symbols gives the symbols back, followed by 'X' for each padding slot |
| Tristate.UnpackExample34 | arduino/libraries/RCSwitchFirmata/src/RCOutputFirmata.cpp:137-146 | byte 0x34 unpacks to "01F0" |
| Tristate.PackExample01F0 | arduino/libraries/RCSwitchFirmata/src/RCOutputFirmata.cpp:148-164 | "01F0" packs into the single byte 0x34, whatever the buffer held |
| TristateCounters.UnpackCountAsWritten | arduino/libraries/RCSwitchFirmata/src/RCOutputFirmata.cpp:137-146 | `unpack`'s `byte` counter, stepped by an 8-bit increment four times per byte, ends at 4n modulo 256 |
| TristateCounters.CountTo | arduino/libraries/RCSwitchFirmata/src/RCOutputFirmata.cpp:150-155 | the first loop of `pack`, stepping its `byte` counter by 8-bit increments, stops exactly at `length` |
| TristateCounters.FillTo | arduino/libraries/RCSwitchFirmata/src/RCOutputFirmata.cpp:157-162 | the fill loop, stepping the `byte` counter until its low two bits are zero, stops at 4·ceil(count/4) modulo 256, wrapping from 255 to 0 |
| TristateCounters.PackCountAsWritten | arduino/libraries/RCSwitchFirmata/src/RCOutputFirmata.cpp:148-164 | the value `pack` returns is ceil(len/4) for up to 252 symbols and 0 for 253 to 255 symbols |
| TristateCounters.CountersAgreeBelowWrap | arduino/libraries/RCSwitchFirmata/src/RCOutputFirmata.cpp:137-164 | below the wrap-around both counters agree with the lengths `Unpack` and `Pack` produce |
| TristateCounters.UnpackCountWraps | arduino/libraries/RCSwitchFirmata/src/RCOutputFirmata.cpp:137-146 | for every non-zero multiple of 64 bytes, `unpack` writes at least 256 symbols but returns 0 |
| TristateCounters.PackCountWraps | arduino/libraries/RCSwitchFirmata/src/RCOutputFirmata.cpp:148-164 | 253 symbols fill 64 bytes, but `pack` returns 0 |
| TristateCounters.LastInBlock | arduino/libraries/RCSwitchFirmata/src/RCOutputFirmata.cpp:139-143 | the byte whose symbols a four-symbol block of the wrapped array finally holds is the last byte before n with the block's position modulo 64 |
| TristateCounters.UnpackAsWritten | arduino/libraries/RCSwitchFirmata/src/RCOutputFirmata.cpp:137-146 | with the byte counter, every block below 64 holds the symbols of the last byte that wrote it, and indices at or above 4n or 256 keep the array's previous contents |
| TristateCounters.UnpackAsWrittenBelowWrap | arduino/libraries/RCSwitchFirmata/src/RCOutputFirmata.cpp:137-146 | up to 64 bytes the array `unpack` fills as written is exactly `Unpack` |
| TristateCounters.RepackWrapped | arduino/libraries/RCSwitchFirmata/src/RCOutputFirmata.cpp:114-120 | re-packing a block of the wrapped array gives the byte that wrote it last |
| Transport.PayloadLength | arduino/libraries/RCSwitchFirmata/src/RCOutputFirmata.cpp:64-67 | the number of 8-bit bytes carried by the 7-bit data bytes never exceeds the number of those bytes |
| Transport.PayloadLengthFacts | arduino/libraries/RCSwitchFirmata/src/RCOutputFirmata.cpp:60-67 | the length is the whole number of bytes in (argc-2)·7 bits; it is 0 exactly when at most one data byte follows; it fits a byte |
| Transport.DecodeInPlace | arduino/libraries/RCSwitchFirmata/src/RCOutputFirmata.cpp:69-70 | after decoding in place, the first `length` bytes are decoded and the remaining bytes keep their 7-bit values |
| Transport.IntValue | arduino/libraries/RCSwitchFirmata/src/RCOutputFirmata.cpp:71 | the value is the signed 16-bit little-endian reading of the first two buffer bytes |
| Registry.Empty | arduino/libraries/RCSwitchFirmata/src/RCOutputFirmata.h:51-52 | a fresh table is valid and has no pin attached |
| Registry.Acquire | arduino/libraries/RCSwitchFirmata/src/RCOutputFirmata.cpp:87-93 | an empty slot gets an instance different from every instance in use; an occupied slot keeps its instance and nothing changes; other pins are untouched |
| Registry.Release | arduino/libraries/RCSwitchFirmata/src/RCOutputFirmata.cpp:97-105 | the slot is cleared and its instance is returned for teardown; an empty slot is a no-op; other pins are untouched |
| Registry.AcquireThenRelease | arduino/libraries/RCSwitchFirmata/src/RCOutputFirmata.cpp:87-105 | attaching a free pin and detaching it restores the table and frees exactly the created instance |
| Registry.AcquireIdempotent | arduino/libraries/RCSwitchFirmata/src/RCOutputFirmata.cpp:87-95 | a second attach reuses the first attach's instance and changes nothing |
| Registry.ReleaseFrom | arduino/libraries/RCSwitchFirmata/src/RCOutputFirmata.cpp:18-25 | the loop from pin `from` on empties exactly the eligible slots at or after `from` |
| Registry.EntriesFrom | arduino/libraries/RCSwitchFirmata/src/RCInputFirmata.cpp:86-89 | the occupied eligible slots are listed with their instances, in strictly ascending pin order, with none missed |
| Registry.ReleaseAll | arduino/libraries/RCSwitchFirmata/src/RCOutputFirmata.cpp:18-25 | after `reset()` every eligible pin is detached and the others are unchanged; every freed instance came from an eligible pin and every occupied eligible pin is freed |
| RCOutput.SubcommandsDistinct | arduino/libraries/RCSwitchFirmata/src/RCOutputFirmata.h:16-26 | the subcommand codes are pairwise distinct, so UNKNOWN is never a real subcommand |
| RCOutput.Attach | arduino/libraries/RCSwitchFirmata/src/RCOutputFirmata.cpp:87-95 | the pin ends up attached; a new sender is created only for an empty slot and is distinct from all others; transmission is enabled on the pin in both cases |
| RCOutput.Detach | arduino/libraries/RCSwitchFirmata/src/RCOutputFirmata.cpp:97-105 | the pin ends up detached; an attached sender is disabled and then freed; a free pin causes no calls |
| RCOutput.AttachThenDetach | arduino/libraries/RCSwitchFirmata/src/RCOutputFirmata.cpp:87-105 | attach then detach of a free pin restores the table, with the calls create, enable, disable and free on one sender |
| RCOutput.Reset | arduino/libraries/RCSwitchFirmata/src/RCOutputFirmata.cpp:18-25 | every digital pin is detached and every other pin kept; the calls are exactly disable-then-free of each sender on a digital pin, in ascending pin order |
| RCOutput.TristateRequest | arduino/libraries/RCSwitchFirmata/src/RCOutputFirmata.cpp:107-112 | the buffer is sent as a C string; the echo length is its `strlen` modulo 256, and no echoed byte is NUL |
| RCOutput.StringRequest | arduino/libraries/RCSwitchFirmata/src/RCOutputFirmata.cpp:130-135 | as for tristate, with `send(char*)` |
| RCOutput.LongRequest | arduino/libraries/RCSwitchFirmata/src/RCOutputFirmata.cpp:122-128 | bytes 0-1 of the buffer are the bit count and bytes 2-5 the code, least significant first; six bytes are echoed |
| RCOutput.PackedTristateRequest | arduino/libraries/RCSwitchFirmata/src/RCOutputFirmata.cpp:114-120 | the 4n unpacked symbols are sent, and the echo holds n bytes equal to the n request bytes |
| RCOutput.Route | arduino/libraries/RCSwitchFirmata/src/RCOutputFirmata.cpp:73-82 | each value subcommand is kept and gets its own branch: the three setters pass the signed 16-bit value and echo the decoded bytes, tristate, long and char codes go to their requests, and the packed code goes to the packed request of the variant; any other subcommand becomes UNKNOWN, makes no call and echoes the decoded bytes; every call goes to the pin's sender |
| RCOutput.HandleSysex | arduino/libraries/RCSwitchFirmata/src/RCOutputFirmata.cpp:27-85 | in either variant, a request that fails validation is refused silently, and only such a request is; a passing request is echoed with its pin; attach or detach goes to the setup branch; anything else goes to the value branch with the decoded buffer |
| RCOutput.Setup | arduino/libraries/RCSwitchFirmata/src/RCOutputFirmata.cpp:39-49 | attach and detach are always handled and echoed without payload; afterwards the pin is attached exactly for an attach; no other pin changes; the table change and driver calls are exactly those of `RCOutput.Attach` or `RCOutput.Detach` |
| RCOutput.Dispatch | arduino/libraries/RCSwitchFirmata/src/RCOutputFirmata.cpp:73-84 | the table is unchanged; the request counts as handled exactly for a known subcommand; the echo carries the pin and the subcommand, or UNKNOWN; the driver calls and the echoed bytes are exactly those of the request `RCOutput.Route` selects |
| RCOutput.PackedTristateEcho | arduino/libraries/RCSwitchFirmata/src/RCOutputFirmata.cpp:114-120 | a packed tristate request is handled in either variant; corrected, and as written when argc is below 76 (fewer than 64 bytes), it sends the unpacked symbols and is echoed with exactly the decoded request bytes |
| RCOutput.LongCodeEcho | arduino/libraries/RCSwitchFirmata/src/RCOutputFirmata.cpp:122-128 | the echo of a long-code request has six bytes, and the bit count and code passed to the driver are those bytes, little-endian |
| RCOutput.SetterEcho | arduino/libraries/RCSwitchFirmata/src/RCOutputFirmata.cpp:71-76 | a protocol, pulse-length or repeat setter passes the signed 16-bit value whose bytes are the first two echoed bytes |
| RCOutput.PulseLength350 | arduino/libraries/RCSwitchFirmata/src/RCOutputFirmata.cpp:64-83 | five arguments decoding to 0x5E 0x01 set a pulse length of 350 and echo those two bytes |
| RCOutput.CStringCodeEcho | arduino/libraries/RCSwitchFirmata/src/RCOutputFirmata.cpp:73-135 | a tristate or character request is handled, makes exactly one send of the decoded buffer as a C string on the pin's sender, and echoes the bytes before the first NUL, the count modulo 256 |
| RCOutput.UnknownSubcommandEcho | arduino/libraries/RCSwitchFirmata/src/RCOutputFirmata.cpp:81-84 | an unknown subcommand for an attached pin makes no call, is echoed as UNKNOWN with the decoded bytes, and returns false |
| RCOutput.AttachPin2 | arduino/libraries/RCSwitchFirmata/src/RCOutputFirmata.cpp:40-48 | attaching pin 2 of an empty table creates sender 0, enables it on pin 2 and echoes the attach |
| RCOutput.PackedTristateRequestAsWritten | arduino/libraries/RCSwitchFirmata/src/RCOutputFirmata.cpp:114-120 | with the byte counters, the echo has n mod 64 bytes, byte j being the last request byte at j's position modulo 64; the array sent wraps at 256; up to 64 bytes the call is the corrected one |
| RCOutput.PackedEchoTruncated | arduino/libraries/RCSwitchFirmata/src/RCOutputFirmata.cpp:137-146 | as written, a multiple of 64 request bytes, reached with 76 arguments, is echoed empty |
| RCOutput.PackedAsWrittenBelowWrap | arduino/libraries/RCSwitchFirmata/src/RCOutputFirmata.cpp:114-146 | below 64 bytes the packed request as written echoes the n request bytes and sends the same symbols as the corrected one |
| RCOutput.PackedRequest76 | arduino/libraries/RCSwitchFirmata/src/RCOutputFirmata.cpp:27-146 | a whole packed request of 76 arguments is echoed without payload as written, and with its 64 decoded bytes once corrected |
| RCOutput.PackedEchoShifted | arduino/libraries/RCSwitchFirmata/src/RCOutputFirmata.cpp:137-146 | as written, 65 request bytes, reached with 77 arguments, are echoed as the single byte 64 instead of bytes 0-64 |
| RCInput.SubcommandsDistinct | arduino/libraries/RCSwitchFirmata/src/RCInputFirmata.h:17-22 | the receiver's subcommand codes are pairwise distinct, so UNKNOWN is never a real subcommand |
| RCInput.GetInterrupt | arduino/libraries/RCSwitchFirmata/src/RCInputFirmata.cpp:181-195 | a pin has an interrupt below 6 exactly when it is one of pins 2, 3, 21, 20, 19, 18; otherwise the result is 255, the byte -1 is stored as |
| RCInput.InterruptTable | arduino/libraries/RCSwitchFirmata/src/RCInputFirmata.cpp:181-195 | the six pins and interrupts 0-5 correspond one to one; the stored marker is -1 modulo 256 and differs from -1 |
| RCInput.EnableOn | arduino/libraries/RCSwitchFirmata/src/RCInputFirmata.cpp:132-139 | the pin becomes an input, a receiver is created only for an empty slot and differs from every receiver in use, an attached pin keeps its receiver and the table, and the receiver is enabled on the given interrupt, with exactly those calls |
| RCInput.AttachAsWritten | arduino/libraries/RCSwitchFirmata/src/RCInputFirmata.cpp:126-140 | as written, every attach succeeds and enables the receiver on the byte `getInterrupt` returned, 255 included; an attached pin keeps its receiver and the table; otherwise a fresh receiver is created; the calls are exactly pin-mode input, the create if any, and the enable |
| RCInput.Attach | arduino/libraries/RCSwitchFirmata/src/RCInputFirmata.cpp:126-140 | attach succeeds exactly for an interrupt pin; a refused attach changes nothing and makes no call; a successful one sets the pin to input, keeps an attached pin's receiver and table or creates a fresh receiver, and enables it on the pin's interrupt, with exactly those calls |
| RCInput.AttachAcceptsPinWithoutInterrupt | arduino/libraries/RCSwitchFirmata/src/RCInputFirmata.cpp:126-131 | pin 4 is accepted as written, with a receiver enabled on interrupt 255, and refused once corrected |
| RCInput.Detach | arduino/libraries/RCSwitchFirmata/src/RCInputFirmata.cpp:142-150 | the pin ends up detached; an attached receiver is disabled and then freed; a free pin causes no calls |
| RCInput.AttachPin4Request | arduino/libraries/RCSwitchFirmata/src/RCInputFirmata.cpp:40-51 | a whole attach request for pin 4 is handled and enables a receiver on interrupt 255 as written, and is echoed but refused with no change once corrected |
| RCInput.AttachThenDetach | arduino/libraries/RCSwitchFirmata/src/RCInputFirmata.cpp:126-150 | attach then detach of a free pin restores the table, and a refused attach leaves nothing to detach |
| RCInput.Reset | arduino/libraries/RCSwitchFirmata/src/RCInputFirmata.cpp:18-26 | every interrupt pin is detached and other pins kept; the calls are exactly disable-then-free of each receiver on such a pin, in ascending pin order; raw-data reporting is off |
| RCInput.HandleSysex | arduino/libraries/RCSwitchFirmata/src/RCInputFirmata.cpp:28-82 | in either variant, a request that fails validation is refused silently, and only such a request is; a passing request is echoed with its pin; attach and detach go to the setup branch and the rest to the value branch |
| RCInput.Setup | arduino/libraries/RCSwitchFirmata/src/RCInputFirmata.cpp:40-51 | attach and detach are echoed without payload whether or not they succeed; as written every attach returns true and attaches the pin; corrected, the result is false only for an attach on a pin without interrupt, which changes nothing; a successful attach sets the pin to input first and enables the receiver on `getInterrupt`'s byte last; the table change and calls are exactly those of the variant's attach, or of `RCInput.Detach` for a detach, which is always handled |
| RCInput.Configure | arduino/libraries/RCSwitchFirmata/src/RCInputFirmata.cpp:71-81 | the tolerance goes to the pin's receiver; the raw-data flag becomes whether decoded byte 0 is non-zero; anything else is echoed as UNKNOWN and returns false |
| RCInput.ReportBlockRoundTrip | arduino/libraries/RCSwitchFirmata/src/RCInputFirmata.cpp:103-116 | the ten-byte big-endian block of value, bit count, delay and protocol reads back as the reception, and every block is the block of what it reads as |
| RCInput.RawLength | arduino/libraries/RCSwitchFirmata/src/RCInputFirmata.cpp:118 | the raw-data length is twice RCSWITCH_MAX_CHANGES when that fits a byte, and never more |
| RCInput.ReportMessage | arduino/libraries/RCSwitchFirmata/src/RCInputFirmata.cpp:118-120 | a report is a MESSAGE for the pin whose payload is the block plus the raw bytes when raw data is on |
| RCInput.ReportPayload | arduino/libraries/RCSwitchFirmata/src/RCInputFirmata.cpp:103-120 | the first ten payload bytes read back as the reception, and the rest are the raw buffer from its start |
| RCInput.ReportEvents | arduino/libraries/RCSwitchFirmata/src/RCInputFirmata.cpp:100-120 | each polled receiver gives `resetAvailable()` followed by its report, in order |
| RCInput.Report | arduino/libraries/RCSwitchFirmata/src/RCInputFirmata.cpp:84-124 | exactly the interrupt pins whose receiver has a code are polled, in ascending order, and each gets reset-then-report with the current raw-data flag |
| LegacyOutput.HandleCapability | Firmata/utility/RCOutputFirmata.cpp:19-25 | a digital pin advertises mode 0x0A with resolution 1; other pins advertise nothing |
| LegacyOutput.HandlePinMode | Firmata/utility/RCOutputFirmata.cpp:27-38 | on a digital pin, mode 0x0A attaches and returns true, and any other mode detaches; other pins are untouched |
| LegacyOutput.CharOfCode | Firmata/utility/RCOutputFirmata.cpp:124-134 | a byte becomes 'X' exactly when it is none of the three symbol codes |
| LegacyOutput.CodeOfChar | Firmata/utility/RCOutputFirmata.cpp:136-146 | a character becomes the reserved code exactly when it is not a symbol |
| LegacyOutput.ConversionsInverse | Firmata/utility/RCOutputFirmata.cpp:124-146 | the two conversions are inverse on the symbols and their codes; other bytes return as the reserved code and other characters as 'X' |
| LegacyOutput.ToTristate | Firmata/utility/RCOutputFirmata.cpp:124-134 | the first `length` bytes become one character each |
| LegacyOutput.FromTristate | Firmata/utility/RCOutputFirmata.cpp:136-146 | the first `length` bytes are overwritten with the character codes and the rest of the buffer is kept |
| LegacyOutput.ConvertExample | Firmata/utility/RCOutputFirmata.cpp:124-146 | codes 0, 1, 3 and 2 read as "0F1X", and "0F1X" writes back 0, 1, 3 and the reserved code 2 |
| LegacyOutput.ConvertThereAndBack | Firmata/utility/RCOutputFirmata.cpp:82-86 | converting there and back keeps the symbol codes, turns every other byte into the reserved code, and keeps the rest of the buffer |
| LegacyOutput.HandleSysex | Firmata/utility/RCOutputFirmata.cpp:49-102 | only a request that passes validation is handled, and then it is always handled, unknown subcommands included; the reply puts the pin before the subcommand; SEND_CODE sends the converted symbols and echoes the normalised codes; setters pass the 16-bit value; the table never changes |
| LegacySwitch.HandleCapability | Firmata/utility/RCSwitchFirmata.cpp:18-24 | a digital pin advertises mode 0x0A with resolution 84, that is 12 symbols of 7 bits |
| LegacySwitch.SymbolOf | Firmata/utility/RCSwitchFirmata.cpp:58-63 | bytes 0, 1 and 2 become '0', 'F' and '1'; any other byte leaves the slot unwritten |
| LegacySwitch.SymbolCodesInverse | Firmata/utility/RCSwitchFirmata.h:26-28 | every symbol's code reads back as the symbol; the code of '1' is 2, unlike 3 in the current packed format |
| LegacySwitch.Symbols | Firmata/utility/RCSwitchFirmata.cpp:56-64 | the array has argc-1 slots; slot i holds the symbol of argument i+1 exactly when that byte is 0, 1 or 2 |
| LegacySwitch.SymbolsExample | Firmata/utility/RCSwitchFirmata.cpp:56-64 | argument bytes 0, 1, 2 and 3 give the slots '0', 'F', '1' and an unwritten slot |
| LegacySwitch.HandleSysex | Firmata/utility/RCSwitchFirmata.cpp:48-69 | a 0x67 request for a pin not ignored is handled by one `sendTriState` of the slot array on the pin's sender, with no reply and no table change; anything else does nothing |
| LegacySwitch.Detach | Firmata/utility/RCSwitchFirmata.cpp:81-88 | the sender is freed without disabling transmission, and the slot is cleared |
| LegacySwitch.HandlePinMode | Firmata/utility/RCSwitchFirmata.cpp:26-37 | on a digital pin, mode 0x0A attaches and returns true, and any other mode detaches; other pins are untouched |
| LegacySwitch.Reset | Firmata/utility/RCSwitchFirmata.cpp:39-46 | every digital pin is detached and other pins kept; the calls are exactly the freeing of each sender on a digital pin, in ascending pin order, with no disable call |

## Left out

- Serial I/O: the START_SYSEX/END_SYSEX framing and the 7-bit encoding of replies (`Encoder7Bit.writeBinary`) are not modelled. A reply is a `Message` holding its header fields and 8-bit payload.
- `Encoder7Bit.readBinary` is a parameter (`Decoder`). Its bit layout belongs to the Firmata library, which is not part of this model.
- The RCSwitch driver is not modelled. Its calls are recorded as data. `available()` and the received values are the `received` map. RCSWITCH_MAX_CHANGES is a parameter, because RCSwitch.h is not part of this model.
- The raw timing buffer can be rewritten by the interrupt routine while `report()` reads it. A reception carries the bytes the read observed; interrupt timing is not modelled.
- Reads past the received arguments (`argv[0]` with `argc == 0` in the earliest sender, `*(int*) data` with one decoded byte, `strlen` without a terminator) read the host's buffer. The buffer is `argv`, and positions past its end read as 0.
- The character arrays passed to `sendTriState` are not NUL-terminated in the source. The model passes the symbols; what the driver reads past them is not modelled.
- TOTAL_PINS is the table size, at most 255. Pin bytes above it would index past the table, so the handlers require the pin to be in range.
- RCInput.Report: the getter calls `report()` makes before `resetAvailable()` (value, bit length, delay, protocol, raw data) read the reception and are not recorded as calls. Only `resetAvailable()` and the message are.
- Floating pins, pin-mode bookkeeping outside PIN_MODE_IGNORE, and memory allocation failure of `new RCSwitch()` are not modelled. The allocator is a counter of fresh handles.
- `handleCapability` and `handlePinMode` of the current handlers are empty stubs (`handlePinMode` returns false). They have no model members.
- `debugLog` of the 2014 sender is diagnostic output only and is left out.
- UNKNOWN and TRISTATE_RESERVED are used but not defined in the 2014 sender's header. The model takes the current release's values, 0x00 and 0x02.
- The stale header arduino/libraries/RCSwitchFirmata/RCOutputFirmata.h is context only. The model follows the src/ header.
- LegacySwitch.HandleSysex: with `argc == 0` the source declares an array of size -1, which is undefined behaviour. The model gives it no slots.
- LegacySwitch.HandleSysex: the source calls the sender of a pin with no attached sender through a null `RCSwitch*`. The model requires an attached sender for every request it handles.
- Tristate.Unpack: returns all 4n symbols, without the byte-wide counter. `TristateCounters.UnpackAsWritten` models the counter, and the `AsWritten` variant of the sender uses it.
- Tristate.Pack: returns the byte count without the byte-wide counter's wrap-around. `TristateCounters.PackCountAsWritten` gives the wrapped value. The only caller passes a multiple of four below 256, for which the two agree.

## Findings

| source | as written | input that shows it | evidently intended | confidence | as-written member | corrected member |
|---|---|---|---|---|---|---|
| arduino/libraries/RCSwitchFirmata/src/RCInputFirmata.cpp:126-131 | `getInterrupt` stores -1 in a `byte`, so it returns 255; `attach` compares that value, widened to `int`, with -1, which never matches | attach on pin 4 succeeds and enables a receiver on interrupt 255 | a pin without interrupt is refused and nothing changes | not executed | RCInput.AttachAsWritten, RCInput.AttachAcceptsPinWithoutInterrupt, RCInput.AttachPin4Request | RCInput.Attach |
| arduino/libraries/RCSwitchFirmata/src/RCOutputFirmata.cpp:137-146 | `unpack` counts symbols in a `byte`, so from 64 bytes on, symbols overwrite the start of the array and the count handed to `pack` wraps | a packed tristate request of 76 arguments (64 bytes) is echoed empty; one of 77 arguments (65 bytes) is echoed as the single byte 64 | all 4n symbols are sent and the n request bytes are echoed | not executed | RCOutput.PackedTristateRequestAsWritten, RCOutput.PackedEchoTruncated, RCOutput.PackedEchoShifted, RCOutput.PackedRequest76 | RCOutput.PackedTristateRequest |
| arduino/libraries/RCSwitchFirmata/src/RCOutputFirmata.cpp:148-164 | `pack` counts symbols in a `byte`, so padding 253 to 255 symbols wraps the counter to 0 | packing 253 symbols writes 64 bytes and returns 0 | the number of bytes written, 64 | not executed | TristateCounters.PackCountAsWritten, TristateCounters.PackCountWraps | Tristate.Pack |
