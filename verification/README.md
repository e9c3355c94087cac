# I2C slave LED-and-address responder, modelled in Dafny

The program is the firmware of a microcontroller that acts as an I2C slave at
address 0x55. It waits for a master to send a packet of up to 18 bytes:
`[LED1][LED2][up to 16 bytes of text]`. The text is normally an IPv4 address
in dotted-decimal form.

For each packet the firmware does three things:

- It decodes the packet. Each LED byte is normalised to on/off and flagged
  when it was not 0 or 1. The payload is copied into a 17-byte buffer, and
  trailing NUL/space bytes are trimmed off.
- It prints a report: the packet number, the LED states, a classification of
  the text, and a raw hex dump.
- It drives two LED pins. A pin is written only when its level changes.

The main loop arms a receive and polls an interrupt-set event word for
transfer-done, with a 5000-pass timeout. It drops the transfer on a bus error
and otherwise processes the data.

The model has seven modules, one per part of the program:

- `Bytes`: bytes, `uint32`, `Option`, and NUL/space.
- `LedControl`: which pin writes `controlLEDs` makes, and what they achieve.
- `PacketDecoder`: the packet layout, the trimmed text, and the in-place trim
  loop.
- `DottedQuad`: the `sscanf("%d.%d.%d.%d")` scanner and the category decision
  list of `displayIPAddress`.
- `RawDump`: the token-and-line-break layout of the raw dump, and the loop
  that prints it.
- `EventWait`: the polling loop `waitForI2CEvent`, against an oracle of
  event-word reads.
- `Responder`: a class `I2cSlave` holding the program's globals, plus
  `controlLEDs`, the LED test blink, `parseAndDisplayData`, and one pass of
  the main loop.

Printed output is modelled by its structure: a `Report` and a `CycleOutcome`
datatype. GPIO writes become an append-only log of `PinWrite`s.

Three behaviours of the code are easy to miss:

- **Bus errors.** The wait watches only the transfer-done bit. A bus error
  that is not accompanied by transfer-done therefore ends in the timeout
  branch, not the bus-error branch. `Responder.LoneBusErrorScenario` shows
  this.
- **Text length.** The trim runs after the copy is truncated to 16 bytes. So
  a payload of more than 16 bytes does not always give a 16-byte text: its
  16th byte may be trimmed. The 18-byte receive buffer also caps the payload
  at 16 bytes anyway.
- **Embedded NULs.** The text is the trimmed copy read as a C string. A NUL
  inside the payload therefore ends the text early, and a space just before
  such a NUL survives the trim.

## Model

| member | source | states |
|---|---|---|
| LedControl.Writes | source/cmsis_i2c_interrupt_transfer.c:115-141 | replaying the writes on the stored levels yields exactly the normalised command; one write per LED whose level changes and none for an LED that keeps it; every write sets the commanded level |
| LedControl.SecondCallWritesNothing | source/cmsis_i2c_interrupt_transfer.c:121-133 | the same command applied again to the state it produced writes no pin (change-only writes make the call idempotent) |
| LedControl.OnlyNormalisedCommandMatters | source/cmsis_i2c_interrupt_transfer.c:117-119 | command bytes that agree on zero/non-zero give the same writes and the same new levels |
| PacketDecoder.PayloadLength | source/cmsis_i2c_interrupt_transfer.c:256-259 | the copy length is positive, at most 16 and at most length - 2, and equals length - 2 below 16 |
| PacketDecoder.Copied | source/cmsis_i2c_interrupt_transfer.c:261 | the copied bytes are PayloadLength of them |
| PacketDecoder.TrimTrailing | source/cmsis_i2c_interrupt_transfer.c:264-271 | the result is a prefix, everything it drops is NUL or space, and it is empty or ends in a byte that is neither |
| PacketDecoder.CString | source/cmsis_i2c_interrupt_transfer.c:253-274 | the C string read from a buffer is a NUL-free prefix followed by a NUL whenever it is shorter than the buffer |
| PacketDecoder.Text | source/cmsis_i2c_interrupt_transfer.c:251-274 | the text is the copied payload, trimmed of its trailing NUL/space run, read as a C string (its bounds are stated by TextIsPrefixOfPayload) |
| PacketDecoder.Decode | source/cmsis_i2c_interrupt_transfer.c:220-277 | a packet is incomplete exactly when it is shorter than 2 bytes (keeping its length); a complete packet has no text exactly when it is 2 bytes long |
| PacketDecoder.LedBytesNormalised | source/cmsis_i2c_interrupt_transfer.c:230-243 | each LED level is on iff its byte is non-zero; each validity flag is false iff its byte exceeds 1 |
| PacketDecoder.NormalisationForgetsMagnitude | source/cmsis_i2c_interrupt_transfer.c:235-243 | [2,0] and [1,0] give the same levels and differ only in LED1's validity flag |
| PacketDecoder.TextIsPrefixOfPayload | source/cmsis_i2c_interrupt_transfer.c:251-274 | the text is a prefix of the payload, at most 16 bytes, without NUL |
| PacketDecoder.TrimIsMaximalRun | source/cmsis_i2c_interrupt_transfer.c:264-271 | any prefix followed only by NUL/space and not ending in one is the trimmed sequence: the trim removes exactly the maximal trailing run |
| PacketDecoder.CStringStopsAtNul | source/cmsis_i2c_interrupt_transfer.c:253-262 | what follows a NUL does not affect the C string |
| PacketDecoder.TextOfTrimmedBuffer | source/cmsis_i2c_interrupt_transfer.c:253-274 | the zero-filled 17-byte buffer after copy and trim, read as a C string, is the decoder's text |
| PacketDecoder.CStringOfNulFree | source/cmsis_i2c_interrupt_transfer.c:166-172 | a NUL-free buffer is its own C string |
| PacketDecoder.TextOfNulFreePayload | source/cmsis_i2c_interrupt_transfer.c:251-274 | without an embedded NUL, the text is the copied payload minus its trailing NUL/space run |
| PacketDecoder.TextLengthWhenNothingTrimmed | source/cmsis_i2c_interrupt_transfer.c:256-271 | a NUL-free copy not ending in a space is kept whole: the text is min(length - 2, 16) bytes |
| PacketDecoder.BlankPayloadGivesEmptyText | source/cmsis_i2c_interrupt_transfer.c:264-274 | an all-NUL/space payload gives the empty text, not the absent one |
| PacketDecoder.TrailingNulsTrimmed | source/cmsis_i2c_interrupt_transfer.c:220-277 | the 18-byte packet [1,0,"192.168.1.10",0,0,0,0] decodes to LED1 on, LED2 off, both valid, text "192.168.1.10" |
| PacketDecoder.EmbeddedNulShortensText | source/cmsis_i2c_interrupt_transfer.c:261-274 | a NUL inside the payload ends the text even when printable bytes follow |
| PacketDecoder.SpaceBeforeEmbeddedNulSurvives | source/cmsis_i2c_interrupt_transfer.c:264-274 | the trim works on the copied bytes, so a space before an embedded NUL stays in the text |
| PacketDecoder.TrimTrailingInPlace | source/cmsis_i2c_interrupt_transfer.c:264-271 | the backward loop leaves the trimmed bytes, NULs over the trailing run, and the rest of the array untouched |
| DottedQuad.SkipSpaces | source/cmsis_i2c_interrupt_transfer.c:172 | `%d` skips white space: the remainder is empty or starts with a non-space |
| DottedQuad.DigitRun | source/cmsis_i2c_interrupt_transfer.c:172 | `%d` takes the longest run of digits: all of it is digits and the next byte is not |
| DottedQuad.ScanInt | source/cmsis_i2c_interrupt_transfer.c:172 | a successful conversion leaves input that does not start with a digit (what it consumed is stated by ScanIntSound, when it fails by ScanIntFailsIff) |
| DottedQuad.SignedInt | source/cmsis_i2c_interrupt_transfer.c:172 | after the white space: an optional sign, then the longest digit run; a success leaves input that does not start with a digit |
| DottedQuad.ScanFields | source/cmsis_i2c_interrupt_transfer.c:172 | the remaining conversions store at most as many fields as remain |
| DottedQuad.Scan | source/cmsis_i2c_interrupt_transfer.c:172 | `sscanf` stores at most four fields (exactly four only for a text starting with a dotted quad: ScanQuadSound) |
| DottedQuad.DigitsValue | source/cmsis_i2c_interrupt_transfer.c:172 | the decimal value of a digit run, most significant digit first; leading zeros add nothing (LeadingZeroIgnored) |
| DottedQuad.ClassifyFields | source/cmsis_i2c_interrupt_transfer.c:174-186 | the decision list on the first two fields: class C, class A, class B, loopback, then public (its exactness is DecisionListExact) |
| DottedQuad.Classify | source/cmsis_i2c_interrupt_transfer.c:166-195 | "Not Connected" only for "N/A" or the empty text; "Invalid/Special" only when fewer than four fields scan and the text is neither |
| DottedQuad.DecisionListExact | source/cmsis_i2c_interrupt_transfer.c:174-186 | each of the five categories holds exactly when its own rule on the first two fields holds, so no rule shadows another, and none is a fallback category |
| DottedQuad.SkipSpacesOver | source/cmsis_i2c_interrupt_transfer.c:172 | white space before a non-space is skipped exactly |
| DottedQuad.DigitRunOf | source/cmsis_i2c_interrupt_transfer.c:172 | the digit run of digits followed by a non-digit is those digits |
| DottedQuad.ScanIntPastSpaces | source/cmsis_i2c_interrupt_transfer.c:172 | `%d` gives the same conversion with or without leading white space |
| DottedQuad.ScanIntOfSigned | source/cmsis_i2c_interrupt_transfer.c:172 | `%d` on an optional sign and a digit run followed by a non-digit reads the signed value of the run and leaves the rest |
| DottedQuad.ScanIntOfField | source/cmsis_i2c_interrupt_transfer.c:172 | `%d` reads any field written with white space, an optional sign and digits, leading zeros allowed, back to its value and leaves what follows |
| DottedQuad.FieldThenDot | source/cmsis_i2c_interrupt_transfer.c:172 | a field followed by '.' is stored and scanning goes on after the dot |
| DottedQuad.LastField | source/cmsis_i2c_interrupt_transfer.c:172 | the last conversion stores its field when no digit follows |
| DottedQuad.LastTwoOfFour | source/cmsis_i2c_interrupt_transfer.c:172 | with two conversions left, "c.d" followed by a non-digit stores c and d |
| DottedQuad.LastThreeOfFour | source/cmsis_i2c_interrupt_transfer.c:172 | with three conversions left, "b.c.d" followed by a non-digit stores b, c and d |
| DottedQuad.ScanFieldsRoundTrip | source/cmsis_i2c_interrupt_transfer.c:172 | any four fields (white space, sign, zero-padded digits) joined by '.' scan back to their four values whatever non-digit text follows |
| DottedQuad.PlainField | source/cmsis_i2c_interrupt_transfer.c:172 | the decimal text of n is a well-formed field whose value is n |
| DottedQuad.ScanQuadRoundTrip | source/cmsis_i2c_interrupt_transfer.c:172 | formatting a.b.c.d and scanning it gives [a, b, c, d] |
| DottedQuad.SkipSpacesSplit | source/cmsis_i2c_interrupt_transfer.c:172 | any text is a run of white space followed by what the skip leaves |
| DottedQuad.SignedIntParts | source/cmsis_i2c_interrupt_transfer.c:172 | a successful conversion after the white space consumed an optional sign and a non-empty digit run, and returns the run's signed value |
| DottedQuad.ScanIntParts | source/cmsis_i2c_interrupt_transfer.c:172 | a successful `%d` consumed white space, an optional sign and a non-empty digit run, in that order, and returns the run's signed value |
| DottedQuad.ScanIntSound | source/cmsis_i2c_interrupt_transfer.c:172 | a successful `%d` consumed exactly one well-formed field, whose value it returns, and left the input after it |
| DottedQuad.ScanIntOfFieldPrefix | source/cmsis_i2c_interrupt_transfer.c:172 | `%d` succeeds on any input that starts with a well-formed field |
| DottedQuad.ScanIntFailsIff | source/cmsis_i2c_interrupt_transfer.c:172 | `%d` fails exactly when the input does not start with a well-formed field (no digit after the white space and the optional sign) |
| DottedQuad.ScanFieldsStep | source/cmsis_i2c_interrupt_transfer.c:172 | when two or more remaining conversions store fields, the input is a well-formed field, '.', and the text the later conversions read |
| DottedQuad.ScanFieldsFirst | source/cmsis_i2c_interrupt_transfer.c:172 | when a remaining conversion stores a field, the input starts with a well-formed field of that value followed by no digit |
| DottedQuad.LastTwoSound | source/cmsis_i2c_interrupt_transfer.c:172 | two fields stored by the last two conversions come from "c.d" followed by no digit |
| DottedQuad.LastThreeSound | source/cmsis_i2c_interrupt_transfer.c:172 | three fields stored by the last three conversions come from "b.c.d" followed by no digit |
| DottedQuad.ScanQuadSound | source/cmsis_i2c_interrupt_transfer.c:172 | `sscanf` stores four fields only for a text that starts with four well-formed fields joined by '.' and followed by no digit; the fields stored are their values |
| DottedQuad.NoQuadIsInvalid | source/cmsis_i2c_interrupt_transfer.c:172-194 | a text that is neither "N/A" nor empty and does not start with a dotted quad of well-formed fields is an "Invalid/Special format" |
| DottedQuad.QuadClassifiedByFirstTwoFields | source/cmsis_i2c_interrupt_transfer.c:172-186 | a text starting with a dotted quad is classified by its first two fields alone |
| DottedQuad.QuadClassified | source/cmsis_i2c_interrupt_transfer.c:172-186 | a text that is exactly a dotted quad a.b.c.d is classified by a and b alone |
| DottedQuad.NoOctetRangeCheck | source/cmsis_i2c_interrupt_transfer.c:174-186 | octets are not range-checked: any quad whose first field is above 255 ("300.1.2.3", say) is public |
| DottedQuad.OversizedOctetsClassA | source/cmsis_i2c_interrupt_transfer.c:174-186 | octets are not range-checked: any quad "10.b.c.d" ("10.999.999.999", say) is private class A |
| DottedQuad.ClassCScenario | source/cmsis_i2c_interrupt_transfer.c:176-177 | "192.168.1.10" is private class C |
| DottedQuad.ClassAScenario | source/cmsis_i2c_interrupt_transfer.c:178-179 | "10.0.0.1" is private class A |
| DottedQuad.ClassBScenario | source/cmsis_i2c_interrupt_transfer.c:180-181 | "172.20.5.1" is private class B |
| DottedQuad.PastClassBScenario | source/cmsis_i2c_interrupt_transfer.c:180-186 | "172.32.0.1" falls outside 16..31 and is public |
| DottedQuad.LoopbackScenario | source/cmsis_i2c_interrupt_transfer.c:182-183 | "127.0.0.1" is loopback |
| DottedQuad.PublicScenario | source/cmsis_i2c_interrupt_transfer.c:184-185 | "8.8.8.8" is public |
| DottedQuad.FieldThenStop | source/cmsis_i2c_interrupt_transfer.c:172 | a field followed by neither a digit nor '.' is the last one stored |
| DottedQuad.LastTwoOfThree | source/cmsis_i2c_interrupt_transfer.c:172 | with three conversions left, "b.c" stores b and c and stops |
| DottedQuad.ScanThreeFields | source/cmsis_i2c_interrupt_transfer.c:172 | three fields joined by '.' scan to exactly their three values |
| DottedQuad.ThreeFieldsInvalid | source/cmsis_i2c_interrupt_transfer.c:172-194 | any text "a.b.c" of three fields scans to exactly [a, b, c] and is an "Invalid/Special format" |
| DottedQuad.NotConnectedScenarios | source/cmsis_i2c_interrupt_transfer.c:190-191 | "N/A" and the empty text are "Not Connected" |
| DottedQuad.GarbageScenario | source/cmsis_i2c_interrupt_transfer.c:172-194 | "garbage" stores no field and is an "Invalid/Special format" |
| DottedQuad.ThreeFieldScenario | source/cmsis_i2c_interrupt_transfer.c:172-194 | "10.0.0" is an "Invalid/Special format" |
| DottedQuad.TrailingTextIgnored | source/cmsis_i2c_interrupt_transfer.c:172-186 | text after the fourth field is ignored: "8.8.8.8 backup" is public |
| DottedQuad.SpacesAndSignsAccepted | source/cmsis_i2c_interrupt_transfer.c:172 | `%d` accepts leading white space and a sign: " 10.-1.+2.\t3" scans to [10, -1, 2, 3] |
| DottedQuad.LeadingZeroIgnored | source/cmsis_i2c_interrupt_transfer.c:172 | a leading '0' does not change the value of a digit run |
| DottedQuad.ZeroPaddedFieldsScenario | source/cmsis_i2c_interrupt_transfer.c:172 | zero-padded fields are read as decimal: "192.168.001.010" scans to [192, 168, 1, 10] |
| DottedQuad.ZeroPaddedClassCScenario | source/cmsis_i2c_interrupt_transfer.c:172-177 | "192.168.001.010" is private class C |
| RawDump.TokenFor | source/cmsis_i2c_interrupt_transfer.c:282-292 | the two LED bytes print as decimal, later bytes as hex, with the character when it is printable |
| RawDump.BreakAfter | source/cmsis_i2c_interrupt_transfer.c:294-297 | a line break follows every eighth byte except the last byte |
| RawDump.Dump | source/cmsis_i2c_interrupt_transfer.c:280-298 | the dump of a packet is its token-and-break sequence over all its bytes |
| RawDump.DumpPrefixLayout | source/cmsis_i2c_interrupt_transfer.c:280-298 | after n iterations the dump holds n tokens and the breaks so far, each byte's token at its position and each break right after its byte |
| RawDump.DumpLayout | source/cmsis_i2c_interrupt_transfer.c:280-298 | the dump has one token per byte and (length - 1) / 8 breaks; the two LED bytes are decimal, later bytes hex with the character when printable; a break follows every eighth byte but never the last |
| RawDump.DumpRaw | source/cmsis_i2c_interrupt_transfer.c:280-298 | the loop prints exactly the dump of the first `length` bytes |
| EventWait.MaxReads | source/cmsis_i2c_interrupt_transfer.c:205-213 | the count starts at 0, is read before the first increment and stops the loop when it reaches the timeout, so a wait makes max(timeout, 1) reads at most |
| EventWait.FirstObserved | source/cmsis_i2c_interrupt_transfer.c:205-213 | the result lies between the start and the bound; below the bound it is a read that sees a masked bit; no earlier read from the start sees one (so it is the first such read, and the bound when there is none) |
| EventWait.WaitForI2CEvent | source/cmsis_i2c_interrupt_transfer.c:200-215 | the wait succeeds iff one of the first max(timeout, 1) reads sees a masked bit; it stops at the first such read; on a timeout it has made all of the reads |
| Responder.Describe | source/cmsis_i2c_interrupt_transfer.c:220-306 | the report is the too-short notice iff the packet has fewer than 2 bytes; otherwise it carries the given number and the decoder's command, and a category iff there is text |
| Responder.NextCount | source/cmsis_i2c_interrupt_transfer.c:227 | the packet counter goes up by one and wraps from 2^32 - 1 to 0 |
| Responder.TransferSeen | source/cmsis_i2c_interrupt_transfer.c:200-215 | a pass's wait succeeds iff one of its first 5000 reads has transfer-done set |
| Responder.DoneRead | source/cmsis_i2c_interrupt_transfer.c:200-215 | the read that ended a successful wait is the first with transfer-done set |
| Responder.ReachesData | source/cmsis_i2c_interrupt_transfer.c:359-389 | a pass reaches the data iff arming succeeded, the wait succeeded and the read after it has no bus error |
| Responder.CopyPayload | source/cmsis_i2c_interrupt_transfer.c:253-262 | the 17-byte buffer holds the first min(length - 2, 16) payload bytes followed by NULs |
| Responder.ExtractText | source/cmsis_i2c_interrupt_transfer.c:251-274 | copying, terminating, trimming in place and reading the 17-byte buffer as a C string yields the decoder's text |
| Responder.I2cSlave.constructor | source/cmsis_i2c_interrupt_transfer.c:44-49 | power-on state: counter 0, both LEDs stored off, no pin written, receive buffer zeroed |
| Responder.I2cSlave.ControlLEDs | source/cmsis_i2c_interrupt_transfer.c:115-141 | the stored levels become the normalised command and exactly the writes of `Writes` are appended to the pin log |
| Responder.I2cSlave.InitializeLEDs | source/cmsis_i2c_interrupt_transfer.c:87-108 | both pins are first set up as outputs at level 0 (logged as two writes, stored levels untouched); the test blink then leaves both LEDs off, having logged the writes of "both on" then "both off" |
| Responder.I2cSlave.ParseAndDisplayData | source/cmsis_i2c_interrupt_transfer.c:220-306 | a packet of two or more bytes is counted modulo 2^32 and numbered with the new count; a shorter one leaves the counter; the report is `Describe` of the received bytes |
| Responder.I2cSlave.LoadBuffer | source/cmsis_i2c_interrupt_transfer.c:361-365 | after the clear and the receive, the buffer holds the received bytes followed by zeros |
| Responder.I2cSlave.HandleData | source/cmsis_i2c_interrupt_transfer.c:389-398 | the received bytes are reported; the LEDs are driven from the first two bytes only when at least two arrived |
| Responder.I2cSlave.ReceiveCycle | source/cmsis_i2c_interrupt_transfer.c:359-407 | one pass takes exactly one branch: arm failure, timeout, bus error, no data or data. Counter, LEDs and pin log change only when data of two or more bytes is processed, and then as `ParseAndDisplayData` and `ControlLEDs` state. The incomplete flag is the event word read after the bus-error test |
| Responder.FirstPacketScenario | source/cmsis_i2c_interrupt_transfer.c:359-398 | after power-on and the test blink, a full packet [1,0,"192.168.1.10",0,0,0,0] with transfer-done set is received as packet 1, private class C, complete, and its only new pin write turns LED1 on |
| Responder.LoneBusErrorScenario | source/cmsis_i2c_interrupt_transfer.c:374-382 | with the bus-error bit set but never transfer-done, the pass times out: no packet is counted and no pin is written |

## Left out

- Board bring-up (pins, clocks, debug console) and the driver's
  initialise, power and own-address calls are left out. These are vendor SDK
  calls. The pass model starts once the slave is configured.
- The CMSIS driver is not part of this model. Its answer to `SlaveReceive`
  is the parameter `armOk`. The bytes it stores (and `GetDataCount`) are the
  parameter `delivered`. The event word it sets from interrupt context is the
  oracle `eventReads`.
- Concurrency between the interrupt handler and the main loop is left out.
  Interrupts are reduced to the sequence of values the event word has when
  read.
- Responder.I2cSlave.ReceiveCycle assumes that the driver's `GetDataCount`
  answer is the number of bytes it stored and is at most 18 (its requires
  `|delivered| <= BufferSize`). The code does not check this: it passes the
  count straight to `parseAndDisplayData`, whose dump loop reads `buffer[i]`
  for every index below it. A larger count (a negative `int32_t` answer
  converted to `uint32_t`, for instance) would read past the 18-byte
  `rxBuffer`. That out-of-bounds read is not modelled.
- The flag clears at the end of a pass and after a bus error are left out.
  The next pass zeroes the event word before reading it, so they are not
  observable.
- Busy-wait delays are left out: they are timing only.
- Console text is left out. That covers banners, `displayLEDStates`, the
  "Hex:" line of `displayIPAddress`, and the "OK"/"FIXED" line. The
  information those lines show is kept in `Report`.
- The `#else` branch of `controlLEDs` (LED2 without a physical pin) is left
  out. It is not compiled, because `LED2_GPIO` is defined.
- The main loop's endless repetition is left out. `ReceiveCycle` is one
  pass, and the class state carries over between calls.
- DottedQuad.Scan does not model `int` overflow of `%d` on very long digit
  runs, which is undefined behaviour in C. Fields are unbounded integers.
- DottedQuad.Scan does not model `sscanf`'s EOF return on an empty text. It
  compares only against 4, so the category is the same.
- DottedQuad.Scan does not model locale-dependent white space. The "C"
  locale is the one modelled.
- EventWait.WaitForI2CEvent counts loop passes, not milliseconds. The
  per-pass delay is not modelled.
