/**
  The packet decoder of `parseAndDisplayData`: the packet layout is
  [LED1][LED2][up to 16 text bytes]. A packet shorter than two bytes is
  incomplete. Otherwise each LED byte is normalised to on/off and flagged when
  it was neither 0 nor 1, and, when there are payload bytes, at most 16 of them
  are copied into a zero-filled 17-byte buffer whose trailing NUL/space bytes
  are then overwritten with NUL. The text that the classifier sees is that
  buffer read as a C string: it ends at the first NUL.
 */
module PacketDecoder {
  import opened Bytes

  /** At most this many payload bytes are copied into the text buffer. */
  const TextCapacity: nat := 16

  /** `char ip_string[17]`: the capacity plus a terminating NUL. */
  const TextBufferSize: nat := 17

  /** A decoded packet: normalised LED levels, whether each LED byte was 0 or 1,
      and the text, absent when the packet held no payload byte. */
  datatype Command = Command(led1: bool, led2: bool, led1Valid: bool, led2Valid: bool, text: Option<seq<byte>>)

  datatype Decoded = Incomplete(length: nat) | Complete(cmd: Command)

  /** The bytes the backward trim loop overwrites: NUL and space. */
  predicate Trimmable(b: byte) {
    b == Nul || b == Space
  }

  /** `ip_length`: the number of payload bytes copied, length - 2 capped at 16. */
  function PayloadLength(length: nat): (n: nat)
    requires length > 2
    ensures 0 < n <= TextCapacity && n <= length - 2
    ensures n < TextCapacity ==> n == length - 2
  {
    if length - 2 > TextCapacity then TextCapacity else length - 2
  }

  /** The payload bytes `memcpy` copies into the text buffer. */
  function Copied(packet: seq<byte>): (c: seq<byte>)
    requires |packet| > 2
    ensures |c| == PayloadLength(|packet|)
  {
    packet[2..2 + PayloadLength(|packet|)]
  }

  /** `s` without its maximal run of trailing NUL/space bytes: a prefix of `s`
      that is followed only by trimmable bytes and is empty or ends in a byte
      that is not trimmable. */
  function TrimTrailing(s: seq<byte>): (r: seq<byte>)
    ensures r <= s
    ensures forall i | |r| <= i < |s| :: Trimmable(s[i])
    ensures |r| > 0 ==> !Trimmable(r[|r| - 1])
  {
    if |s| == 0 then []
    else if Trimmable(s[|s| - 1]) then TrimTrailing(s[..|s| - 1])
    else s
  }

  /** The C string stored at the start of `buf`: the bytes before the first
      NUL, or all of `buf` when it holds no NUL. */
  function CString(buf: seq<byte>): (r: seq<byte>)
    ensures r <= buf
    ensures Nul !in r
    ensures |r| < |buf| ==> buf[|r|] == Nul
  {
    if |buf| == 0 || buf[0] == Nul then []
    else [buf[0]] + CString(buf[1..])
  }

  /** The text handed to the classifier for a packet with payload bytes. */
  function Text(packet: seq<byte>): seq<byte>
    requires |packet| > 2
  {
    CString(TrimTrailing(Copied(packet)))
  }

  /** The decoder as a whole. */
  function Decode(packet: seq<byte>): (d: Decoded)
    ensures d.Incomplete? <==> |packet| < 2
    ensures d.Incomplete? ==> d.length == |packet|
    ensures d.Complete? ==> (d.cmd.text.None? <==> |packet| == 2)
  {
    if |packet| < 2 then Incomplete(|packet|)
    else
      Complete(Command(IsOn(packet[0]), IsOn(packet[1]),
                       InRange(packet[0]), InRange(packet[1]),
                       if |packet| > 2 then Some(Text(packet)) else None))
  }

  /** Each LED level is on exactly when its byte is non-zero, and each
      validity flag is false exactly when its byte exceeds 1. */
  lemma LedBytesNormalised(packet: seq<byte>)
    requires |packet| >= 2
    ensures Decode(packet).Complete?
    ensures Decode(packet).cmd.led1 <==> packet[0] != 0
    ensures Decode(packet).cmd.led2 <==> packet[1] != 0
    ensures !Decode(packet).cmd.led1Valid <==> packet[0] > 1
    ensures !Decode(packet).cmd.led2Valid <==> packet[1] > 1
  {
  }

  /** [2, 0] and [1, 0] give the same LED levels and differ only in LED1's
      validity flag. */
  lemma NormalisationForgetsMagnitude()
    ensures Decode([2, 0]).cmd.led1 == Decode([1, 0]).cmd.led1 == true
    ensures Decode([2, 0]).cmd.led2 == Decode([1, 0]).cmd.led2 == false
    ensures !Decode([2, 0]).cmd.led1Valid && Decode([1, 0]).cmd.led1Valid
    ensures Decode([2, 0]).cmd.led2Valid && Decode([1, 0]).cmd.led2Valid
  {
  }

  /** The text is a prefix of the payload, at most 16 bytes long, with no NUL. */
  lemma {:induction false} TextIsPrefixOfPayload(packet: seq<byte>)
    requires |packet| > 2
    ensures Text(packet) <= packet[2..]
    ensures |Text(packet)| <= TextCapacity
    ensures Nul !in Text(packet)
  {
    var c := Copied(packet);
    assert c <= packet[2..];
    assert TrimTrailing(c) <= c;
    assert CString(TrimTrailing(c)) <= TrimTrailing(c);
  }

  /** Any prefix of `s` that is followed only by trimmable bytes and does not
      itself end in one is the trimmed `s`: trimming removes exactly the
      maximal trailing run. */
  lemma {:induction false} TrimIsMaximalRun(s: seq<byte>, r: seq<byte>)
    requires r <= s
    requires forall i | |r| <= i < |s| :: Trimmable(s[i])
    requires |r| > 0 ==> !Trimmable(r[|r| - 1])
    ensures r == TrimTrailing(s)
  {
    var t := TrimTrailing(s);
    assert |t| > 0 ==> !Trimmable(s[|t| - 1]);
    assert |r| > 0 ==> !Trimmable(s[|r| - 1]);
  }

  /** A C string followed by a NUL byte reads the same with or without what
      follows that NUL. */
  lemma {:induction false} CStringStopsAtNul(t: seq<byte>, z: seq<byte>)
    requires |z| > 0 && z[0] == Nul
    ensures CString(t + z) == CString(t)
  {
    if |t| == 0 {
      assert t + z == z;
    } else if t[0] != Nul {
      assert (t + z)[1..] == t[1..] + z;
      CStringStopsAtNul(t[1..], z);
    }
  }

  /** The text buffer after the trim loop: the trimmed payload, NULs where the
      trailing run was, then at least one more NUL. Read as a C string, it is
      the decoder's text. */
  lemma {:induction false} TextOfTrimmedBuffer(packet: seq<byte>, buf: seq<byte>, tail: seq<byte>)
    requires |packet| > 2
    requires |tail| > 0 && tail[0] == Nul
    requires buf == TrimTrailing(Copied(packet)) + Zeros(PayloadLength(|packet|) - |TrimTrailing(Copied(packet))|) + tail
    ensures CString(buf) == Text(packet)
  {
    var t := TrimTrailing(Copied(packet));
    var z := Zeros(PayloadLength(|packet|) - |t|);
    assert buf == t + (z + tail);
    CStringStopsAtNul(t, z + tail);
  }

  /** A buffer without NUL bytes is its own C string. */
  lemma {:induction false} CStringOfNulFree(s: seq<byte>)
    requires Nul !in s
    ensures CString(s) == s
  {
    if |s| > 0 {
      assert s[0] in s;
      assert forall i | 0 <= i < |s| - 1 :: s[1..][i] == s[i + 1];
      CStringOfNulFree(s[1..]);
    }
  }

  /** When the copied payload holds no NUL, the text is the copied payload
      without its trailing NUL/space run. */
  lemma {:induction false} TextOfNulFreePayload(packet: seq<byte>)
    requires |packet| > 2
    requires Nul !in Copied(packet)
    ensures Text(packet) == TrimTrailing(Copied(packet))
  {
    var t := TrimTrailing(Copied(packet));
    forall i | 0 <= i < |t| ensures t[i] != Nul {
      assert t[i] == Copied(packet)[i];
    }
    CStringOfNulFree(t);
  }

  /** The text keeps every copied byte, min(length - 2, 16) of them, when the
      copied payload has no NUL and does not end in a space. */
  lemma {:induction false} TextLengthWhenNothingTrimmed(packet: seq<byte>)
    requires |packet| > 2
    requires Nul !in Copied(packet)
    requires Copied(packet)[|Copied(packet)| - 1] != Space
    ensures |Text(packet)| == PayloadLength(|packet|)
    ensures Text(packet) == Copied(packet)
  {
    var c := Copied(packet);
    assert c[|c| - 1] in c;
    TrimIsMaximalRun(c, c);
    TextOfNulFreePayload(packet);
  }

  /** An all-NUL/space payload decodes to the empty text (not to no text). */
  lemma {:induction false} BlankPayloadGivesEmptyText(packet: seq<byte>)
    requires |packet| > 2
    requires forall i | 2 <= i < |packet| :: Trimmable(packet[i])
    ensures Decode(packet).cmd.text == Some([])
  {
    var c := Copied(packet);
    forall i | 0 <= i < |c| ensures Trimmable(c[i]) {
      assert c[i] == packet[2 + i];
    }
    TrimIsMaximalRun(c, []);
  }

  /** A full 18-byte packet carrying "192.168.1.10" and four NULs decodes to
      LED1 on, LED2 off, both bytes valid, and the text "192.168.1.10". */
  lemma TrailingNulsTrimmed()
    ensures Decode([1, 0] + Ascii("192.168.1.10") + Zeros(4))
            == Complete(Command(true, false, true, true, Some(Ascii("192.168.1.10"))))
  {
    var ip := Ascii("192.168.1.10");
    var packet := [1, 0] + ip + Zeros(4);
    assert Copied(packet) == ip + Zeros(4);
    assert forall i | 0 <= i < |ip| :: ip[i] != Nul;
    TrimIsMaximalRun(ip + Zeros(4), ip);
    CStringOfNulFree(ip);
  }

  /** A NUL inside the payload ends the text early, even when printable bytes
      follow it. */
  lemma EmbeddedNulShortensText()
    ensures Text([0, 0] + Ascii("10.0") + [0] + Ascii("0.1")) == Ascii("10.0")
  {
    var head, tail := Ascii("10.0"), [0] + Ascii("0.1");
    var c := head + tail;
    assert [0, 0] + Ascii("10.0") + [0] + Ascii("0.1") == [0, 0] + c;
    assert Copied([0, 0] + c) == c;
    assert c[|c| - 1] == 49;
    TrimIsMaximalRun(c, c);
    assert head == [49, 48, 46, 48];
    CStringOfNulFree(head);
    CStringStopsAtNul(head, tail);
  }

  /** The trim runs on the copied bytes, not on the C string: a space just
      before an embedded NUL survives into the text. */
  lemma SpaceBeforeEmbeddedNulSurvives()
    ensures Text([0, 0] + Ascii("ab ") + [0] + Ascii("x")) == Ascii("ab ")
  {
    var head, tail := Ascii("ab "), [0] + Ascii("x");
    var c := head + tail;
    assert [0, 0] + Ascii("ab ") + [0] + Ascii("x") == [0, 0] + c;
    assert Copied([0, 0] + c) == c;
    assert c[|c| - 1] == 120;
    TrimIsMaximalRun(c, c);
    assert head == [97, 98, 32];
    CStringOfNulFree(head);
    CStringStopsAtNul(head, tail);
  }

  /** The backward loop of `parseAndDisplayData` over the first `n` bytes of
      the text buffer: from index n - 1 down, each NUL/space byte is set to NUL
      until the first other byte. Afterwards the buffer holds the trimmed bytes,
      NULs where the trailing run was, and the untouched rest. */
  method TrimTrailingInPlace(buf: array<byte>, n: nat)
    requires n <= buf.Length
    modifies buf
    ensures buf[..] == TrimTrailing(old(buf[..n])) + Zeros(n - |TrimTrailing(old(buf[..n]))|) + old(buf[n..])
  {
    ghost var original := buf[..];
    var i: int := n - 1;
    while i >= 0
      invariant -1 <= i < n
      invariant buf[..i + 1] == original[..i + 1]
      invariant forall k | i + 1 <= k < n :: buf[k] == Nul && Trimmable(original[k])
      invariant buf[n..] == original[n..]
    {
      if buf[i] == Nul || buf[i] == Space {
        buf[i] := Nul;
        i := i - 1;
      } else {
        break;
      }
    }
    ghost var kept := original[..i + 1];
    TrimIsMaximalRun(original[..n], kept);
    assert buf[..] == kept + Zeros(n - |kept|) + original[n..];
  }
}
