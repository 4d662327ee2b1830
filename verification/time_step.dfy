/** The TOTP time step of section 4.2 of RFC 6238 and its encoding as the
    8-byte HOTP counter of section 5.1 of RFC 4226 (`F` and `i2b_time` in
    src/lib.rs). */
module TimeStep {

  import opened BigEndian

  /** One more than the largest value of Rust's `u64`. */
  const U64Limit: nat := 0x1_0000_0000_0000_0000

  type u64 = x: int | 0 <= x < U64Limit

  /** The step length in seconds, `F`. */
  const StepSeconds: u64 := 30

  /** The width of the counter, in bytes. */
  const CounterWidth: nat := 8

  /** The number of whole steps elapsed at `epochSec`, i.e. `epoch_sec / F`.
      Both operands are unsigned, so the division floors: the time is
      rounded down to the start of its step, not to the nearest step. */
  function StepOf(epochSec: u64): (t: u64)
    ensures t * StepSeconds <= epochSec < (t + 1) * StepSeconds
  {
    epochSec / StepSeconds
  }

  lemma Pow256Width()
    ensures Pow256(CounterWidth) == U64Limit
  {
  }

  /** `i2b_time`: the eight bytes of a `u64` in big-endian order, whatever
      the host's native order. */
  function I2bTime(time: u64): (bytes: seq<byte>)
    ensures |bytes| == CounterWidth
    ensures ToNat(bytes) == time
  {
    Pow256Width();
    FromNat(time, CounterWidth)
  }

  /** Byte `i` of the counter is base-256 digit `7 - i` of the time: the most
      significant byte is sent first. */
  lemma I2bTimeBytes(time: u64)
    ensures forall i :: 0 <= i < CounterWidth ==>
      I2bTime(time)[i] == time / Pow256(CounterWidth - 1 - i) % 256
  {
    Pow256Width();
    forall i | 0 <= i < CounterWidth
      ensures I2bTime(time)[i] == time / Pow256(CounterWidth - 1 - i) % 256
    {
      FromNatByte(time, CounterWidth, i);
    }
  }

  /** The counter bytes the code for `epochSec` is computed from. */
  function CounterBytes(epochSec: u64): (bytes: seq<byte>)
    ensures |bytes| == CounterWidth
    ensures ToNat(bytes) * StepSeconds <= epochSec < (ToNat(bytes) + 1) * StepSeconds
  {
    I2bTime(StepOf(epochSec))
  }

  /** Two instants share their counter bytes exactly when they fall in the
      same 30-second step. */
  lemma SameCounterIffSameStep(t1: u64, t2: u64)
    ensures CounterBytes(t1) == CounterBytes(t2) <==> t1 / StepSeconds == t2 / StepSeconds
  {
    ToNatInjective(CounterBytes(t1), CounterBytes(t2));
  }

  /** Moving on by one step always changes the counter. */
  lemma NextStepNewCounter(t: u64)
    requires t + StepSeconds < U64Limit
    ensures CounterBytes(t) != CounterBytes(t + StepSeconds)
  {
    SameCounterIffSameStep(t, t + StepSeconds);
  }
}
