/**
  Vocabulary shared by the responder's components: bytes as they sit in the
  receive buffer, 32-bit unsigned counters, an optional value, and the two
  per-byte tests that the packet decoder and the LED controller both apply to
  an LED command byte.
 */
module Bytes {

  /** An unsigned 8-bit value (`uint8_t`, `char` in the text buffer). */
  type byte = b: int | 0 <= b < 256

  /** An unsigned 32-bit value (`uint32_t`). */
  type uint32 = n: int | 0 <= n < 0x1_0000_0000

  const Uint32Modulus: nat := 0x1_0000_0000

  datatype Option<T> = None | Some(value: T)

  const Nul: byte := 0
  const Space: byte := 32

  /** `b ? 1 : 0`: every non-zero LED command byte means "on". */
  predicate IsOn(b: byte) {
    b != 0
  }

  /** An LED command byte is accepted as it is only when it is 0 or 1; the
      source flags `b > 1` as invalid. */
  predicate InRange(b: byte) {
    b <= 1
  }

  /** `k` NUL bytes. */
  function Zeros(k: nat): (z: seq<byte>)
    ensures |z| == k && forall i | 0 <= i < k :: z[i] == Nul
  {
    seq(k, _ => Nul)
  }

  /** The character codes of `s`, for writing byte strings as text. */
  function Ascii(s: string): seq<byte>
    requires forall i | 0 <= i < |s| :: s[i] as int < 256
  {
    seq(|s|, i requires 0 <= i < |s| => s[i] as int)
  }
}
