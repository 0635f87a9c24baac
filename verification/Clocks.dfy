/** The wrapping 32-bit millisecond clock, and how long a two-phase pattern is in
    its first phase. */
module Clocks {
  import opened Bytes

  /** What the 32-bit clock reads at true time `t`. */
  function Reading(t: nat): u32 {
    t % U32
  }

  /** Unsigned 32-bit subtraction of two readings. */
  function Elapsed(now: u32, since: u32): u32 {
    (now - since) % U32
  }

  /** 32-bit multiplication and addition of unsigned values. */
  function Mul32(a: u32, b: u32): u32 {
    a * b % U32
  }

  function Add32(a: u32, b: u32): u32 {
    (a + b) % U32
  }

  lemma {:induction false} Ordered(a: int, b: int, d: nat)
    requires a < b
    ensures a * d + d <= b * d
    decreases b - a
  {
    assert b * d == (b - 1) * d + d;
    if a < b - 1 {
      Ordered(a, b - 1, d);
    }
  }

  /** Division with remainder has one answer. */
  lemma {:induction false} SubtractMultiple(n: nat, d: nat, q: nat)
    requires d > 0 && q * d <= n < q * d + d
    ensures n % d == n - q * d && n / d == q
  {
    var q', r' := n / d, n % d;
    if q' < q {
      Ordered(q', q, d);
    } else if q' > q {
      Ordered(q, q', d);
    }
  }

  /** The difference of two readings is the true time between them, modulo the
      clock's range: wraparound in between does not matter. */
  lemma {:induction false} ElapsedIsTrueTime(since: nat, t: nat)
    requires since <= t
    ensures Elapsed(Reading(t), Reading(since)) == (t - since) % U32
  {
    var a, b := t / U32, since / U32;
    assert t == a * U32 + t % U32 && since == b * U32 + since % U32;
    assert t - since == (a - b) * U32 + (t % U32 - since % U32);
  }

  // ---- Time spent in the first phase ----

  /** How many of the instants 0..n-1 are in the first `on` of each `cycle`. */
  function OnTime(on: nat, cycle: nat, n: nat): nat
    requires cycle > 0
  {
    if n == 0 then 0
    else OnTime(on, cycle, n - 1) + if (n - 1) % cycle < on then 1 else 0
  }

  lemma {:induction false} OnTimePartial(on: nat, cycle: nat, k: nat, r: nat)
    requires on <= cycle && cycle > 0 && r <= cycle
    ensures OnTime(on, cycle, k * cycle + r) == k * on + Min(r, on)
    decreases k, r
  {
    if r > 0 {
      OnTimePartial(on, cycle, k, r - 1);
      SubtractMultiple(k * cycle + r - 1, cycle, k);
    } else if k > 0 {
      OnTimePartial(on, cycle, k - 1, cycle);
      assert (k - 1) * cycle + cycle == k * cycle;
      assert (k - 1) * on + on == k * on;
    }
  }

  /** `k` whole cycles hold `k` times the first phase. */
  lemma {:induction false} OnTimeOfCycles(on: nat, cycle: nat, k: nat)
    requires on <= cycle && cycle > 0
    ensures OnTime(on, cycle, k * cycle) == k * on
  {
    OnTimePartial(on, cycle, k, 0);
  }
}
