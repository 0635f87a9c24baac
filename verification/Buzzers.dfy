/** The buzzer pattern resolver (buz_state.c): a beep pattern recomputed from a
    wrapping 32-bit clock. */
module Buzzers {
  import opened Bytes
  import opened Clocks

  const TONE_OFF := 0x01

  /** The fields of osdp_BUZ that the resolver looks at. */
  datatype Command = Command(tone: byte, onTime: byte, offTime: byte, count: byte)

  /** osdp_buz_t. */
  datatype Pattern = Pattern(tone: byte, onTime: byte, offTime: byte, count: byte, started: u32, active: bool)

  /** osdp_buz_init. */
  const Silent := Pattern(0, 0, 0, 0, 0, false)

  /** osdp_buz_apply. */
  function Load(cmd: Command, now: u32): Pattern {
    Pattern(cmd.tone, cmd.onTime, cmd.offTime, cmd.count, now, cmd.tone != TONE_OFF)
  }

  /** osdp_buz_sounding, in 32-bit arithmetic. */
  predicate Sounding(b: Pattern, now: u32) {
    b.active && b.tone != TONE_OFF &&
    var on := Mul32(b.onTime, 100);
    var off := Mul32(b.offTime, 100);
    var cycle := Add32(on, off);
    if cycle == 0 then on > 0
    else
      var elapsed := Elapsed(now, b.started);
      && (b.count > 0 ==> elapsed < Mul32(b.count, cycle))
      && elapsed % cycle < on
  }

  /** The beeper as osdp_pd_t and the ACU slot embed it. */
  class Buzzer {
    var pattern: Pattern

    constructor ()
      ensures pattern == Silent && forall now: u32 :: !Sounding(pattern, now)
    {
      pattern := Silent;
    }

    method Apply(cmd: Command, now: u32)
      modifies this
      ensures pattern == Load(cmd, now)
    {
      pattern := Pattern(cmd.tone, cmd.onTime, cmd.offTime, cmd.count, now, cmd.tone != TONE_OFF);
    }
  }

  // ---- No intermediate value leaves 32 bits ----

  function On(c: Command): nat {
    c.onTime * 100
  }

  function Cycle(c: Command): nat {
    c.onTime * 100 + c.offTime * 100
  }

  function Duration(c: Command): nat {
    c.count * Cycle(c)
  }

  lemma {:induction false} NoOverflow(c: Command)
    ensures Mul32(c.onTime, 100) == On(c)
    ensures Add32(Mul32(c.onTime, 100), Mul32(c.offTime, 100)) == Cycle(c)
    ensures Duration(c) <= 13_005_000
    ensures Mul32(c.count, Add32(Mul32(c.onTime, 100), Mul32(c.offTime, 100))) == Duration(c)
  {
    assert Cycle(c) <= 51_000;
    assert Duration(c) <= 255 * 51_000 by {
      assert c.count * Cycle(c) <= c.count * 51_000;
    }
  }

  /** Whether the pattern sounds at true time `t`, stated on true times: modulo
      the clock's range, in the first phase of one of the first `count` cycles. */
  lemma {:induction false} SoundsWhen(c: Command, since: nat, t: nat)
    requires since <= t
    ensures Sounding(Load(c, Reading(since)), Reading(t)) <==>
            && c.tone != TONE_OFF
            && Cycle(c) > 0
            && var e := (t - since) % U32;
               (c.count > 0 ==> e < Duration(c)) && e % Cycle(c) < On(c)
  {
    NoOverflow(c);
    ElapsedIsTrueTime(since, t);
  }

  // ---- How long it sounds ----

  /** Milliseconds of sound among the `n` that follow true time `from`. */
  function SoundTime(b: Pattern, from: nat, n: nat): nat {
    if n == 0 then 0
    else SoundTime(b, from, n - 1) + if Sounding(b, Reading(from + n - 1)) then 1 else 0
  }

  lemma {:induction false} SoundTimeShift(b: Pattern, from: nat, n: nat)
    ensures SoundTime(b, from, n + 1) ==
            (if Sounding(b, Reading(from)) then 1 else 0) + SoundTime(b, from + 1, n)
  {
    hide Sounding;
    if n > 0 {
      SoundTimeShift(b, from, n - 1);
      assert from + 1 + (n - 1) == from + n;
    }
  }

  /** A whole turn of the clock sounds the same wherever it starts. */
  lemma {:induction false} WindowAnywhere(b: Pattern, from: nat, k: nat)
    ensures SoundTime(b, from + k, U32) == SoundTime(b, from, U32)
    decreases k
  {
    hide Sounding;
    if k > 0 {
      WindowAnywhere(b, from, k - 1);
      var at := from + k - 1;
      SoundTimeShift(b, at, U32);
      assert Reading(at + U32) == Reading(at);
    }
  }

  lemma {:induction false} SoundsAfter(c: Command, since: nat, e: nat)
    requires e < U32
    ensures Sounding(Load(c, Reading(since)), Reading(since + e)) <==>
            c.tone != TONE_OFF && Cycle(c) > 0 && (c.count > 0 ==> e < Duration(c)) && e % Cycle(c) < On(c)
  {
    hide Sounding, Duration, Cycle, On, Load;
    SoundsWhen(c, since, since + e);
    assert (since + e - since) % U32 == e;
  }

  /** From its start, a finite pattern follows the first phase of its cycles and
      then stays silent for the rest of the clock's turn. */
  lemma {:induction false} FirstTurn(c: Command, since: nat, n: nat)
    requires c.tone != TONE_OFF && c.count > 0 && Cycle(c) > 0 && n <= U32
    ensures SoundTime(Load(c, Reading(since)), since, n) == OnTime(On(c), Cycle(c), Min(n, Duration(c)))
    decreases n
  {
    hide Sounding, Duration, Cycle, On, Load, Reading;
    if n > 0 {
      FirstTurn(c, since, n - 1);
      SoundsAfter(c, since, n - 1);
    }
  }

  /** Over one whole turn of the 32-bit clock, from any moment, a finite pattern
      sounds for exactly `count` times its on-time. */
  lemma {:induction false} SoundsExactly(c: Command, since: nat, from: nat)
    requires c.tone != TONE_OFF && c.count > 0
    ensures SoundTime(Load(c, Reading(since)), from, U32) == c.count * On(c)
  {
    var b := Load(c, Reading(since));
    if Cycle(c) == 0 {
      NeverSounds(c, since, from, U32);
    } else {
      NoOverflow(c);
      FirstTurn(c, since, U32);
      OnTimeOfCycles(On(c), Cycle(c), c.count);
      WindowAnywhere(b, since, from);
      WindowAnywhere(b, from, since);
    }
  }

  lemma {:induction false} NeverSounds(c: Command, since: nat, from: nat, n: nat)
    requires c.tone == TONE_OFF || Cycle(c) == 0
    ensures SoundTime(Load(c, Reading(since)), from, n) == 0
  {
    if n > 0 {
      NeverSounds(c, since, from, n - 1);
    }
  }

  /** All of it before `count * (on + off)` milliseconds have passed... */
  lemma {:induction false} SilentAfter(c: Command, since: nat, t: nat)
    requires c.count > 0 && since <= t < since + U32
    ensures Sounding(Load(c, Reading(since)), Reading(t)) ==> t - since < Duration(c)
  {
    SoundsWhen(c, since, t);
    assert (t - since) % U32 == t - since;
  }

  /** ...and again, from the beginning, after each turn of the clock: the resolver
      never marks a finished pattern as done. */
  lemma {:induction false} PatternReturns(c: Command, since: nat, t: nat, k: nat)
    requires since <= t
    ensures Sounding(Load(c, Reading(since)), Reading(t + k * U32)) <==> Sounding(Load(c, Reading(since)), Reading(t))
  {
    assert (t + k * U32) % U32 == t % U32 by {
      var q := t / U32;
      assert q * U32 + k * U32 == (q + k) * U32;
      SubtractMultiple(t + k * U32, U32, q + k);
    }
  }

  /** A continuous pattern (count zero) sounds its share of every whole number of
      cycles that fit one turn of the clock. */
  lemma {:induction false} ContinuousShare(c: Command, since: nat, k: nat)
    requires c.tone != TONE_OFF && c.count == 0 && Cycle(c) > 0 && k * Cycle(c) <= U32
    ensures SoundTime(Load(c, Reading(since)), since, k * Cycle(c)) == k * On(c)
  {
    ContinuousPrefix(c, since, k * Cycle(c));
    OnTimeOfCycles(On(c), Cycle(c), k);
  }

  lemma {:induction false} ContinuousPrefix(c: Command, since: nat, n: nat)
    requires c.tone != TONE_OFF && c.count == 0 && Cycle(c) > 0 && n <= U32
    ensures SoundTime(Load(c, Reading(since)), since, n) == OnTime(On(c), Cycle(c), n)
    decreases n
  {
    hide Sounding, Cycle, On, Load, Reading, Duration;
    if n > 0 {
      ContinuousPrefix(c, since, n - 1);
      SoundsAfter(c, since, n - 1);
    }
  }
}
