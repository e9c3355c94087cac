/**
  The I2C slave responder's state and its step operations: the globals of the
  program (received-packet counter, stored LED levels, receive buffer), the
  log of LED pin writes standing in for the GPIO port, `controlLEDs`,
  `initializeLEDs`' test blink, `parseAndDisplayData` and one pass of the main
  loop. Printed text is modelled by its structure: a `Report` says what
  `parseAndDisplayData` shows, a `CycleOutcome` which branch of the loop ran.
 */
module Responder {
  import opened Bytes
  import opened LedControl
  import opened PacketDecoder
  import DottedQuad
  import RawDump
  import EventWait

  /** `BUFFER_SIZE`: two LED bytes and sixteen text bytes. */
  const BufferSize: nat := 18

  /** What `parseAndDisplayData` shows for one call: a too-short notice with
      the length, or the packet number, the decoded command, the category of
      the text when there is one, and the raw dump. */
  datatype Report =
    | IncompleteReport(length: nat)
    | PacketReport(number: uint32, cmd: Command, category: Option<DottedQuad.Category>, dump: seq<RawDump.DumpItem>)

  /** The report for `packet` when it is numbered `number`. */
  function Describe(number: uint32, packet: seq<byte>): (r: Report)
    ensures r.IncompleteReport? <==> |packet| < 2
    ensures r.PacketReport? ==> r.number == number && Decode(packet) == Complete(r.cmd)
    ensures r.PacketReport? ==> (r.category.Some? <==> |packet| > 2)
  {
    match Decode(packet)
    case Incomplete(n) => IncompleteReport(n)
    case Complete(cmd) =>
      PacketReport(number, cmd,
                   if cmd.text.Some? then Some(DottedQuad.Classify(cmd.text.value)) else None,
                   RawDump.Dump(packet))
  }

  /** Which branch one pass of the main loop took. */
  datatype CycleOutcome =
    | ArmFailed
    | TimedOut
    | BusFault
    | NoData
    | Received(report: Report, incomplete: bool)

  /** The counter after one more packet: `uint32_t` wrap-around. */
  function NextCount(n: uint32): (m: uint32)
    ensures n < Uint32Modulus - 1 ==> m == n + 1
    ensures n == Uint32Modulus - 1 ==> m == 0
  {
    (n + 1) % Uint32Modulus
  }

  /** Whether the transfer-done bit shows up within the timeout in the
      event-word reads `eventReads`. */
  predicate TransferSeen(eventReads: nat -> bv32) {
    exists k | 0 <= k < EventWait.MaxReads(EventWait.TimeoutMs) :: EventWait.Observed(eventReads(k), EventWait.TransferDone)
  }

  /** The index of the read that ended a successful wait; the bus-error test
      reads the word once more after it, the incomplete test once more again. */
  function DoneRead(eventReads: nat -> bv32): nat {
    EventWait.FirstObserved(eventReads, EventWait.TransferDone, 0, EventWait.MaxReads(EventWait.TimeoutMs))
  }

  /** Whether a pass with this arming result and these reads gets past the
      wait and the bus-error test to the data. */
  predicate ReachesData(armOk: bool, eventReads: nat -> bv32) {
    armOk && TransferSeen(eventReads)
    && !EventWait.Observed(eventReads(DoneRead(eventReads) + 1), EventWait.BusError)
  }

  /** The copy into the text buffer: a fresh zero-filled 17-byte array gets
      the first min(length - 2, 16) payload bytes, and its last byte is set to
      NUL. */
  method CopyPayload(buffer: array<byte>, length: uint32) returns (ipString: array<byte>, ipLength: nat)
    requires 2 < length <= buffer.Length
    ensures fresh(ipString)
    ensures ipLength == PayloadLength(length)
    ensures ipString[..] == Copied(buffer[..length]) + Zeros(TextBufferSize - ipLength)
  {
    ipString := new byte[TextBufferSize](_ => Nul);
    ipLength := length - 2;
    if ipLength > 16 {
      ipLength := 16;
    }
    forall k | 0 <= k < ipLength {
      ipString[k] := buffer[2 + k];
    }
    ipString[16] := Nul;
    ghost var copied := Copied(buffer[..length]);
    assert forall k | 0 <= k < ipLength :: ipString[k] == copied[k];
    assert ipString[..] == copied + Zeros(TextBufferSize - ipLength);
  }

  /** The text block of `parseAndDisplayData`: the payload is copied into the
      text buffer, its trailing NUL/space run is overwritten with NUL, and the
      buffer is read as a C string. The result is the decoder's text. */
  method ExtractText(buffer: array<byte>, length: uint32) returns (text: seq<byte>)
    requires 2 < length <= buffer.Length
    ensures text == Text(buffer[..length])
  {
    var ipString, ipLength := CopyPayload(buffer, length);
    ghost var copied := ipString[..ipLength];
    ghost var tail := ipString[ipLength..];
    assert copied == Copied(buffer[..length]);
    assert tail == Zeros(TextBufferSize - ipLength);
    TrimTrailingInPlace(ipString, ipLength);
    text := CString(ipString[..]);
    TextOfTrimmedBuffer(buffer[..length], ipString[..], tail);
  }

  class I2cSlave {
    /** `packetCounter`: the number of packets of at least two bytes shown. */
    var packetCounter: uint32
    /** `currentLED1State`, `currentLED2State`. */
    var led1: bool
    var led2: bool
    /** Every LED pin write so far, oldest first. */
    var pinWrites: seq<PinWrite>
    /** `rxBuffer`. */
    const rxBuffer: array<byte>

    ghost predicate Valid()
      reads this
    {
      rxBuffer.Length == BufferSize
    }

    function Leds(): LedStates
      reads this
    {
      LedStates(led1, led2)
    }

    /** Power-on state: counter zero, both LEDs stored off, no pin written. */
    constructor ()
      ensures Valid() && fresh(rxBuffer)
      ensures packetCounter == 0 && Leds() == LedStates(false, false) && pinWrites == []
      ensures rxBuffer[..] == Zeros(BufferSize)
    {
      packetCounter := 0;
      led1, led2 := false, false;
      pinWrites := [];
      rxBuffer := new byte[BufferSize](_ => Nul);
    }

    /** `controlLEDs`: the stored levels become the commanded ones and the
        pin writes of `Writes` are appended to the log. */
    method ControlLEDs(cmd1: byte, cmd2: byte)
      modifies this`led1, this`led2, this`pinWrites
      ensures Leds() == Commanded(cmd1, cmd2)
      ensures pinWrites == old(pinWrites) + Writes(old(Leds()), cmd1, cmd2)
    {
      var on1 := cmd1 != 0;
      var on2 := cmd2 != 0;
      if on1 != led1 {
        pinWrites := pinWrites + [PinWrite(Led1, on1)];
        led1 := on1;
      }
      if on2 != led2 {
        pinWrites := pinWrites + [PinWrite(Led2, on2)];
        led2 := on2;
      }
    }

    /** `initializeLEDs`: both pins are configured as outputs at level 0
        (the stored levels are not touched), then the test blink turns both
        LEDs on and then both off. */
    method InitializeLEDs()
      modifies this`led1, this`led2, this`pinWrites
      ensures Leds() == LedStates(false, false)
      ensures pinWrites == old(pinWrites) + [PinWrite(Led1, false), PinWrite(Led2, false)]
                           + Writes(old(Leds()), 1, 1) + Writes(LedStates(true, true), 0, 0)
    {
      pinWrites := pinWrites + [PinWrite(Led1, false), PinWrite(Led2, false)];
      ControlLEDs(1, 1);
      ControlLEDs(0, 0);
    }

    /** `parseAndDisplayData` on the first `length` bytes of `buffer`. A packet
        of at least two bytes is counted (modulo 2^32) and numbered with the
        new count; the report is the decoder's command, the classifier's
        category of the text and the raw dump. */
    method ParseAndDisplayData(buffer: array<byte>, length: uint32) returns (report: Report)
      requires length <= buffer.Length
      modifies this`packetCounter
      ensures packetCounter == if length >= 2 then NextCount(old(packetCounter)) else old(packetCounter)
      ensures report == Describe(packetCounter, buffer[..length])
    {
      if length < 2 {
        return IncompleteReport(length);
      }
      packetCounter := (packetCounter + 1) % Uint32Modulus;
      ghost var packet := buffer[..length];

      var led1State, led2State := buffer[0], buffer[1];
      var led1Valid, led2Valid := true, true;
      if led1State > 1 {
        // normalised like any non-zero byte: on
        led1State := 1;
        led1Valid := false;
      }
      if led2State > 1 {
        // normalised like any non-zero byte: on
        led2State := 1;
        led2Valid := false;
      }

      var text: Option<seq<byte>> := None;
      var category: Option<DottedQuad.Category> := None;
      if length > 2 {
        var ipText := ExtractText(buffer, length);
        text := Some(ipText);
        category := Some(DottedQuad.Classify(ipText));
      }
      var dump := RawDump.DumpRaw(buffer, length);
      report := PacketReport(packetCounter, Command(led1State == 1, led2State == 1, led1Valid, led2Valid, text), category, dump);
    }

    /** The receive buffer after `memset` and a receive that stored `bytes`:
        those bytes, then zeros. */
    method LoadBuffer(bytes: seq<byte>)
      requires Valid() && |bytes| <= BufferSize
      modifies rxBuffer
      ensures rxBuffer[..] == bytes + Zeros(BufferSize - |bytes|)
    {
      forall k | 0 <= k < rxBuffer.Length {
        rxBuffer[k] := if k < |bytes| then bytes[k] else Nul;
      }
    }

    /** The data part of a pass: show the `bytesReceived` bytes at the front
        of the receive buffer and, when there are two or more, drive the LEDs
        from the first two. */
    method HandleData(bytesReceived: uint32) returns (report: Report)
      requires Valid() && 0 < bytesReceived <= BufferSize
      modifies this`packetCounter, this`led1, this`led2, this`pinWrites
      ensures report == Describe(packetCounter, rxBuffer[..bytesReceived])
      ensures packetCounter == if bytesReceived >= 2 then NextCount(old(packetCounter)) else old(packetCounter)
      ensures bytesReceived >= 2 ==>
                Leds() == Commanded(rxBuffer[0], rxBuffer[1])
                && pinWrites == old(pinWrites) + Writes(old(Leds()), rxBuffer[0], rxBuffer[1])
      ensures bytesReceived < 2 ==> Leds() == old(Leds()) && pinWrites == old(pinWrites)
    {
      report := ParseAndDisplayData(rxBuffer, bytesReceived);
      if bytesReceived >= 2 {
        ControlLEDs(rxBuffer[0], rxBuffer[1]);
      }
    }

    /** One pass of the main loop. The buffer is cleared and a receive of up
        to 18 bytes is armed (`armOk` is the driver's answer); the bytes the
        master then sends are `delivered`, and `eventReads(k)` is the event
        word at its k-th read in this pass. The pass waits for transfer-done,
        drops the transfer on a bus error, and otherwise shows the data and,
        for two or more bytes, drives the LEDs from the first two. */
    method ReceiveCycle(armOk: bool, eventReads: nat -> bv32, delivered: seq<byte>) returns (outcome: CycleOutcome)
      requires Valid() && |delivered| <= BufferSize
      modifies this`packetCounter, this`led1, this`led2, this`pinWrites, rxBuffer
      ensures Valid()
      ensures outcome == ArmFailed <==> !armOk
      ensures outcome == TimedOut <==> armOk && !TransferSeen(eventReads)
      ensures outcome == BusFault <==> armOk && TransferSeen(eventReads) && !ReachesData(armOk, eventReads)
      ensures outcome == NoData <==> ReachesData(armOk, eventReads) && |delivered| == 0
      ensures outcome.Received? <==> ReachesData(armOk, eventReads) && |delivered| > 0
      ensures outcome.Received? ==>
                outcome.report == Describe(packetCounter, delivered)
                && (outcome.incomplete <==> EventWait.Observed(eventReads(DoneRead(eventReads) + 2), EventWait.TransferIncomplete))
      ensures rxBuffer[..] == (if armOk then delivered else []) + Zeros(BufferSize - (if armOk then |delivered| else 0))
      ensures packetCounter == if ReachesData(armOk, eventReads) && |delivered| >= 2 then NextCount(old(packetCounter)) else old(packetCounter)
      ensures ReachesData(armOk, eventReads) && |delivered| >= 2 ==>
                Leds() == Commanded(delivered[0], delivered[1])
                && pinWrites == old(pinWrites) + Writes(old(Leds()), delivered[0], delivered[1])
      ensures !(ReachesData(armOk, eventReads) && |delivered| >= 2) ==>
                Leds() == old(Leds()) && pinWrites == old(pinWrites)
    {
      LoadBuffer([]);
      if !armOk {
        return ArmFailed;
      }
      // The driver stores the received bytes at the front of the buffer.
      LoadBuffer(delivered);

      var done, readCount := EventWait.WaitForI2CEvent(eventReads, EventWait.TransferDone, EventWait.TimeoutMs);
      if !done {
        return TimedOut;
      }
      assert readCount - 1 == DoneRead(eventReads);
      if eventReads(readCount) & EventWait.BusError != 0 {
        return BusFault;
      }
      var bytesReceived: uint32 := |delivered|;
      if bytesReceived == 0 {
        return NoData;
      }
      assert rxBuffer[..bytesReceived] == delivered;
      var report := HandleData(bytesReceived);
      var incomplete := eventReads(readCount + 1) & EventWait.TransferIncomplete != 0;
      return Received(report, incomplete);
    }
  }

  /** A first packet after power-on and the LED test blink: LED1 on, LED2 off,
      text "192.168.1.10", delivered in full with transfer-done set on every
      read. It is packet #1, its text is private class C, and the only new pin
      write turns LED1 on. */
  method FirstPacketScenario() {
    var slave := new I2cSlave();
    slave.InitializeLEDs();
    assert slave.pinWrites == [PinWrite(Led1, false), PinWrite(Led2, false),
                               PinWrite(Led1, true), PinWrite(Led2, true), PinWrite(Led1, false), PinWrite(Led2, false)];
    var packet := [1, 0] + Ascii("192.168.1.10") + Zeros(4);
    var eventReads: nat -> bv32 := _ => EventWait.TransferDone;
    assert EventWait.Observed(eventReads(0), EventWait.TransferDone);
    assert DoneRead(eventReads) == 0;
    var outcome := slave.ReceiveCycle(true, eventReads, packet);
    TrailingNulsTrimmed();
    DottedQuad.ClassCScenario();
    assert outcome.Received? && !outcome.incomplete;
    assert outcome.report.number == 1;
    assert outcome.report.cmd == Command(true, false, true, true, Some(Ascii("192.168.1.10")));
    assert outcome.report.category == Some(DottedQuad.PrivateClassC);
    assert slave.Leds() == LedStates(true, false);
    assert slave.pinWrites[6..] == [PinWrite(Led1, true)];
  }

  /** The wait watches transfer-done alone: a pass whose every read shows only
      the bus-error bit times out rather than reporting a bus error, and
      nothing of the state but the buffer changes. */
  method LoneBusErrorScenario() {
    var slave := new I2cSlave();
    var eventReads: nat -> bv32 := _ => EventWait.BusError;
    var outcome := slave.ReceiveCycle(true, eventReads, [0, 1]);
    assert outcome == TimedOut;
    assert slave.packetCounter == 0 && slave.pinWrites == [];
  }
}
