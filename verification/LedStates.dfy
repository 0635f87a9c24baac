/** One reader LED (led_state.c): a permanent flasher and a timed override,
    resolved from a wrapping 32-bit clock. */
module LedStates {
  import opened Bytes
  import opened Clocks

  const BLACK: byte := 0
  const TEMP_CANCEL := 0x01
  const TEMP_SET := 0x02
  const PERM_SET := 0x01
  /** OSDP_LED_RECORD_BYTES. */
  const RECORD := 14

  datatype Flash = Flash(onColor: byte, offColor: byte, onTime: byte, offTime: byte)

  /** osdp_led_t. */
  datatype Led = Led(permanent: Flash, temporary: Flash, active: bool, started: u32, duration: u32)

  /** osdp_led_record_t. */
  datatype Record = Record(
    reader: byte,
    led: byte,
    tempControl: byte,
    temporary: Flash,
    timer: nat,
    permControl: byte,
    permanent: Flash)

  /** osdp_led_init. */
  const Dark := Led(Flash(BLACK, BLACK, 0, 0), Flash(BLACK, BLACK, 0, 0), false, 0, 0)

  /** The record at position `i` of a command payload. */
  function RecordAt(payload: seq<byte>, i: nat): Record
    requires (i + 1) * RECORD <= |payload|
  {
    var r := payload[i * RECORD..(i + 1) * RECORD];
    Record(r[0], r[1], r[2], Flash(r[5], r[6], r[3], r[4]), Le16(r[7], r[8]),
           r[9], Flash(r[12], r[13], r[10], r[11]))
  }

  /** The record on the wire, byte by byte (Table 15 of section 6.10). */
  lemma {:induction false} RecordLayout(payload: seq<byte>, i: nat, r: seq<byte>)
    requires (i + 1) * 14 <= |payload| && r == payload[i * 14..(i + 1) * 14]
    ensures var rec := RecordAt(payload, i);
            && rec.reader == r[0] && rec.led == r[1]
            && rec.tempControl == r[2] && rec.temporary.onTime == r[3] && rec.temporary.offTime == r[4]
            && rec.temporary.onColor == r[5] && rec.temporary.offColor == r[6]
            && rec.timer == r[7] as int + 256 * r[8] as int
            && rec.permControl == r[9] && rec.permanent.onTime == r[10] && rec.permanent.offTime == r[11]
            && rec.permanent.onColor == r[12] && rec.permanent.offColor == r[13]
  {
    Le16Value(r[7], r[8]);
  }

  /** osdp_led_apply. */
  function Apply(led: Led, rec: Record, now: u32): Led {
    var l := if rec.permControl == PERM_SET then led.(permanent := rec.permanent) else led;
    if rec.tempControl == TEMP_CANCEL then l.(active := false)
    else if rec.tempControl == TEMP_SET then
      l.(temporary := rec.temporary, active := true, started := now, duration := rec.timer * 100 % U32)
    else l
  }

  /** flash_color. */
  function FlashColor(f: Flash, elapsed: u32): byte {
    var on := Mul32(f.onTime, 100);
    var period := Add32(on, Mul32(f.offTime, 100));
    if period == 0 then f.onColor
    else if elapsed % period < on then f.onColor else f.offColor
  }

  /** osdp_led_color. */
  function Color(led: Led, now: u32): byte {
    var elapsed := Elapsed(now, led.started);
    if led.active && led.duration != 0 && elapsed < led.duration then FlashColor(led.temporary, elapsed)
    else FlashColor(led.permanent, now)
  }

  // ---- The override in true time ----

  /** What the header promises: the override for its timer, then the permanent
      setting. */
  function Promised(led: Led, rec: Record, since: nat, t: nat): byte
    requires since <= t
  {
    var permanent := Apply(led, rec, Reading(since)).permanent;
    if t - since < rec.timer * 100 then FlashColor(rec.temporary, (t - since) % U32)
    else FlashColor(permanent, Reading(t))
  }

  /** The promise is kept at `t` whatever the colours and flash times, for an
      override of the given timer loaded at `since`. */
  ghost predicate PromiseKept(timer: nat, since: nat, t: nat)
    requires since <= t
  {
    forall led: Led, rec: Record :: rec.tempControl == TEMP_SET && rec.timer == timer ==>
      Color(Apply(led, rec, Reading(since)), Reading(t)) == Promised(led, rec, since, t)
  }

  /** That is so for one turn of the clock after the command, whether or not the
      clock wraps in between, and from then on exactly outside the override's
      window, which comes round again with every turn. */
  lemma {:induction false} OverrideKept(timer: nat, since: nat, t: nat)
    requires since <= t && timer < U16
    ensures PromiseKept(timer, since, t) <==> t - since < U32 || (t - since) % U32 >= timer * 100
  {
    hide FlashColor;
    ElapsedIsTrueTime(since, t);
    if t - since < U32 {
      assert (t - since) % U32 == t - since;
    } else if (t - since) % U32 < timer * 100 {
      var rec := Record(0, 0, TEMP_SET, Flash(1, 1, 0, 0), timer, 0, Flash(0, 0, 0, 0));
      SteadyColor(1, Reading(t));
      SteadyColor(1, (t - since) % U32);
      SteadyColor(BLACK, Reading(t));
      assert Color(Apply(Dark, rec, Reading(since)), Reading(t)) != Promised(Dark, rec, since, t);
    }
  }

  lemma {:induction false} SteadyColor(color: byte, elapsed: u32)
    ensures FlashColor(Flash(color, color, 0, 0), elapsed) == color
  {}

  /** A red override of 0.1 s over a dark LED shows again after 2^32 ms. */
  lemma OverrideReturns()
    ensures var rec := Record(0, 0, TEMP_SET, Flash(1, 1, 1, 0), 1, 0, Flash(0, 0, 0, 0));
            Promised(Dark, rec, 0, U32) == BLACK && Color(Apply(Dark, rec, Reading(0)), Reading(U32)) == 1
  {}

  /** The permanent setting after a record: replaced by control code 1, kept by
      any other. */
  function PermanentAfter(led: Led, rec: Record): Flash {
    if rec.permControl == 0x01 then rec.permanent else led.permanent
  }

  /** The colour at any time of the clock's turn that follows a record: code 2
      shows the new override for its timer, code 1 shows the permanent setting at
      once and for good, any other code leaves an override its remaining time. */
  lemma {:induction false} ColorAfter(led: Led, rec: Record, since: nat, t: nat)
    requires since <= t < since + U32 && rec.timer < U16
    ensures var permanent := FlashColor(PermanentAfter(led, rec), Reading(t));
            var left := Elapsed(Reading(t), led.started);
            Color(Apply(led, rec, Reading(since)), Reading(t)) ==
            if rec.tempControl == 0x02 then
              if t - since < rec.timer * 100 then FlashColor(rec.temporary, t - since) else permanent
            else if rec.tempControl == 0x01 then permanent
            else if led.active && left < led.duration then FlashColor(led.temporary, left) else permanent
  {
    hide FlashColor;
    ElapsedIsTrueTime(since, t);
    assert (t - since) % U32 == t - since;
  }

  /** From a cancelling record on, the permanent setting shows at every time. */
  lemma {:induction false} CancelReverts(led: Led, rec: Record, now: u32, later: u32)
    requires rec.tempControl == 0x01
    ensures Color(Apply(led, rec, now), later) == FlashColor(PermanentAfter(led, rec), later)
  {
    hide FlashColor;
  }

  // ---- The share of time in each colour ----

  /** The instants 0..n-1 of a flasher at which `color` is shown. */
  function ShownTime(f: Flash, color: byte, n: nat): nat {
    if n == 0 then 0 else ShownTime(f, color, n - 1) + if FlashColor(f, Reading(n - 1)) == color then 1 else 0
  }

  function On(f: Flash): nat {
    f.onTime * 100
  }

  function Period(f: Flash): nat {
    f.onTime * 100 + f.offTime * 100
  }

  /** A flasher of two colours shows the first for `k` times its on-time in `k`
      periods. */
  lemma {:induction false} FlashShare(f: Flash, k: nat)
    requires f.onColor != f.offColor && Period(f) > 0 && k * Period(f) <= U32
    ensures ShownTime(f, f.onColor, k * Period(f)) == k * On(f)
  {
    FlashPrefix(f, k * Period(f));
    OnTimeOfCycles(On(f), Period(f), k);
  }

  /** And the second colour for the rest of each period; without any times the
      first one is steady. */
  lemma {:induction false} OtherPhase(f: Flash, e: u32)
    ensures Period(f) == 0 ==> FlashColor(f, e) == f.onColor
    ensures Period(f) > 0 && e % Period(f) >= On(f) ==> FlashColor(f, e) == f.offColor
    ensures Period(f) > 0 && e % Period(f) < On(f) ==> FlashColor(f, e) == f.onColor
  {
    assert Mul32(f.onTime, 100) == On(f) && Add32(On(f), Mul32(f.offTime, 100)) == Period(f);
    hide *;
  }

  lemma {:induction false} InFirstPhase(f: Flash, e: u32)
    requires f.onColor != f.offColor && Period(f) > 0
    ensures FlashColor(f, e) == f.onColor <==> e % Period(f) < On(f)
  {
    assert Mul32(f.onTime, 100) == On(f) && Add32(On(f), Mul32(f.offTime, 100)) == Period(f);
    hide *;
  }

  lemma {:induction false} FlashPrefix(f: Flash, n: nat)
    requires f.onColor != f.offColor && Period(f) > 0 && n <= U32
    ensures ShownTime(f, f.onColor, n) == OnTime(On(f), Period(f), n)
  {
    hide FlashColor, On, Period;
    if n > 0 {
      FlashPrefix(f, n - 1);
      InFirstPhase(f, n - 1);
      assert Reading(n - 1) == n - 1;
    }
  }
}
