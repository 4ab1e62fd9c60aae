/** The millisecond timebase: a `uint32_t` counter the SysTick interrupt
    advances by ten on every tick. */
module Timebase {
  import opened Word32

  /** Milliseconds added by one SysTick interrupt. */
  const TickMs: u32 := 10

  /** The counter after one tick: ten milliseconds later, measured with
      wrap-safe unsigned subtraction. */
  function Tick(t: u32): (r: u32)
    ensures Sub(r, t) == TickMs
  {
    Add(t, TickMs)
  }

  /** The counter after `n` ticks. */
  function Ticks(t: u32, n: nat): u32 {
    if n == 0 then t else Tick(Ticks(t, n - 1))
  }

  /** After `n` ticks the counter is `t + 10n` modulo 2^32, and the unsigned
      difference from the start is `10n` modulo 2^32, also across a wrap-around. */
  lemma {:induction false} TicksElapsed(t: u32, n: nat)
    ensures Ticks(t, n) == (t + TickMs * n) % Modulus
    ensures Sub(Ticks(t, n), t) == TickMs * n % Modulus
  {
    var total := t + TickMs * n;
    if n > 0 {
      TicksElapsed(t, n - 1);
      var prev := Ticks(t, n - 1);
      var k := (total - TickMs - prev) / Modulus;
      assert total - TickMs == k * Modulus + prev;
      if prev + TickMs < Modulus {
        ModUnique(total, k, prev + TickMs);
      } else {
        ModUnique(total, k + 1, prev + TickMs - Modulus);
      }
    }
    var now := Ticks(t, n);
    var j := (total - now) / Modulus;
    assert total == j * Modulus + now;
    if now >= t {
      ModUnique(TickMs * n, j, now - t);
    } else {
      ModUnique(TickMs * n, j - 1, now - t + Modulus);
    }
  }
}
