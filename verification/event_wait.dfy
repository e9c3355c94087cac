/**
  `waitForI2CEvent`: poll the interrupt-set event word until one of the
  masked bits is set, counting one millisecond per pass, and give up once the
  count reaches the timeout. The event word is written from interrupt context;
  here it is an oracle: `eventReads(k)` is the value the loop condition reads
  on its k-th evaluation, counting from 0. The busy-wait delay between reads
  is timing only and is not modelled.
 */
module EventWait {
  import opened Bytes

  /** Event bits of the CMSIS-Driver I2C interface (ARM_I2C_EVENT_...). */
  const TransferDone: bv32 := 1
  const TransferIncomplete: bv32 := 2
  const BusError: bv32 := 0x80

  /** `I2C_TIMEOUT_MS`. */
  const TimeoutMs: uint32 := 5000

  /** The most reads of the event word one wait makes: the first read happens
      before any count, so even a zero timeout reads once. */
  function MaxReads(timeoutMs: uint32): nat {
    if timeoutMs == 0 then 1 else timeoutMs
  }

  predicate Observed(word: bv32, mask: bv32) {
    word & mask != 0
  }

  /** The index of the first read from `from` on, below `bound`, that sees a
      masked bit; `bound` when there is none. */
  function FirstObserved(eventReads: nat -> bv32, mask: bv32, from: nat, bound: nat): (k: nat)
    ensures from <= bound ==> from <= k <= bound
    ensures k < bound ==> Observed(eventReads(k), mask)
    ensures forall j | from <= j < k && j < bound :: !Observed(eventReads(j), mask)
    decreases bound - from
  {
    if from >= bound then bound
    else if Observed(eventReads(from), mask) then from
    else FirstObserved(eventReads, mask, from + 1, bound)
  }

  /** The wait loop. It answers true exactly when one of the first
      MaxReads(timeoutMs) reads sees a masked bit; `readCount` is how many
      reads it made: up to and including the first one that sees a bit, or all
      MaxReads(timeoutMs) of them on a timeout. */
  method WaitForI2CEvent(eventReads: nat -> bv32, mask: bv32, timeoutMs: uint32) returns (ok: bool, readCount: nat)
    ensures 1 <= readCount <= MaxReads(timeoutMs)
    ensures forall k | 0 <= k < readCount - 1 :: !Observed(eventReads(k), mask)
    ensures ok <==> Observed(eventReads(readCount - 1), mask)
    ensures !ok ==> readCount == MaxReads(timeoutMs)
    ensures ok <==> exists k | 0 <= k < MaxReads(timeoutMs) :: Observed(eventReads(k), mask)
    ensures ok ==> readCount - 1 == FirstObserved(eventReads, mask, 0, MaxReads(timeoutMs))
  {
    var timeoutCounter: uint32 := 0;
    while !Observed(eventReads(timeoutCounter), mask)
      invariant timeoutCounter < MaxReads(timeoutMs)
      invariant forall k | 0 <= k < timeoutCounter :: !Observed(eventReads(k), mask)
      decreases MaxReads(timeoutMs) - timeoutCounter
    {
      timeoutCounter := timeoutCounter + 1;
      if timeoutCounter >= timeoutMs {
        return false, timeoutCounter;
      }
    }
    return true, timeoutCounter + 1;
  }
}
