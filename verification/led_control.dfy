/**
  The LED controller's decision (`controlLEDs`): normalise each command byte
  to on/off and drive a pin only when the normalised command differs from the
  level last stored for that LED. The stored levels and the log of pin writes
  live in the responder's state (module Responder); this module states what
  one call writes and proves what that write log means.
 */
module LedControl {
  import opened Bytes

  datatype Led = Led1 | Led2

  /** One `GPIO_WritePinOutput` call: the LED whose pin is driven and the level. */
  datatype PinWrite = PinWrite(led: Led, on: bool)

  /** The two stored LED levels (`currentLED1State`, `currentLED2State`). */
  datatype LedStates = LedStates(led1: bool, led2: bool)

  function Level(s: LedStates, led: Led): bool {
    match led
    case Led1 => s.led1
    case Led2 => s.led2
  }

  /** The levels the command bytes ask for, after normalisation. */
  function Commanded(cmd1: byte, cmd2: byte): LedStates {
    LedStates(IsOn(cmd1), IsOn(cmd2))
  }

  /** The pin levels after the writes `ws` are carried out, in order, on top of `s`. */
  function Replay(s: LedStates, ws: seq<PinWrite>): LedStates
    decreases |ws|
  {
    if ws == [] then s
    else
      var w := ws[0];
      var s' := if w.led == Led1 then s.(led1 := w.on) else s.(led2 := w.on);
      Replay(s', ws[1..])
  }

  /** The number of LEDs whose stored level differs from the commanded one. */
  function ChangedCount(s: LedStates, cmd1: byte, cmd2: byte): nat {
    (if IsOn(cmd1) != s.led1 then 1 else 0) + (if IsOn(cmd2) != s.led2 then 1 else 0)
  }

  /** The pin writes of one `controlLEDs` call with stored levels `s`: LED1's
      write (if any) before LED2's. Carrying them out yields exactly the
      commanded levels, every write changes a level, and there is one write
      per LED that changes and none for an LED that keeps its level. */
  function Writes(s: LedStates, cmd1: byte, cmd2: byte): (ws: seq<PinWrite>)
    ensures Replay(s, ws) == Commanded(cmd1, cmd2)
    ensures |ws| == ChangedCount(s, cmd1, cmd2)
    ensures forall w | w in ws :: Level(s, w.led) != w.on && w.on == Level(Commanded(cmd1, cmd2), w.led)
    ensures forall led: Led :: (exists w | w in ws :: w.led == led) <==> Level(s, led) != Level(Commanded(cmd1, cmd2), led)
  {
    var w1 := if IsOn(cmd1) != s.led1 then [PinWrite(Led1, IsOn(cmd1))] else [];
    var w2 := if IsOn(cmd2) != s.led2 then [PinWrite(Led2, IsOn(cmd2))] else [];
    assert Replay(s, w1 + w2) == Commanded(cmd1, cmd2) by {
      var s1 := s.(led1 := IsOn(cmd1));
      assert Replay(s, w1 + w2) == Replay(s1, w2) by {
        if w1 != [] {
          assert (w1 + w2)[1..] == w2;
        } else {
          assert w1 + w2 == w2;
        }
      }
      assert Replay(s1, w2) == s1.(led2 := IsOn(cmd2)) by {
        if w2 != [] {
          assert w2[1..] == [];
        }
      }
    }
    w1 + w2
  }

  /** Applying the same command pair a second time writes nothing, so the
      stored levels stay where the first call put them. */
  lemma {:induction false} SecondCallWritesNothing(s: LedStates, cmd1: byte, cmd2: byte)
    ensures Writes(Replay(s, Writes(s, cmd1, cmd2)), cmd1, cmd2) == []
  {
    var s' := Replay(s, Writes(s, cmd1, cmd2));
    assert s' == Commanded(cmd1, cmd2);
    assert ChangedCount(s', cmd1, cmd2) == 0;
  }

  /** Only normalised levels matter: command bytes that agree on zero/non-zero
      produce the same writes and the same new levels. */
  lemma {:induction false} OnlyNormalisedCommandMatters(s: LedStates, a1: byte, a2: byte, b1: byte, b2: byte)
    requires IsOn(a1) == IsOn(b1) && IsOn(a2) == IsOn(b2)
    ensures Writes(s, a1, a2) == Writes(s, b1, b2)
    ensures Commanded(a1, a2) == Commanded(b1, b2)
  {
  }
}
