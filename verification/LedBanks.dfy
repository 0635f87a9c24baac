/** The PD's bank of reader LEDs (pd.c): a fixed array of slots claimed on first
    use, refined to a map from (reader, LED) to its state. */
module LedBanks {
  import opened Bytes
  import opened LedStates

  /** Reader number and LED number. */
  type Key = (byte, byte)

  /** The state of an LED and the colour last reported to the listener. */
  datatype Tracked = Tracked(state: Led, lastColor: byte)

  /** osdp_pd_led_slot_t. */
  datatype Slot = Slot(used: bool, key: Key, item: Tracked)

  const Fresh := Tracked(Dark, BLACK)

  function KeyOf(rec: Record): Key {
    (rec.reader, rec.led)
  }

  // ---- The array as a map ----

  type Bank = map<Key, Tracked>

  predicate Unique(b: seq<Slot>) {
    forall i, j :: 0 <= i < j < |b| && b[i].used && b[j].used ==> b[i].key != b[j].key
  }

  function Contents(b: seq<Slot>): Bank {
    if b == [] then map[]
    else
      var n := |b| - 1;
      var m := Contents(b[..n]);
      if b[n].used then m[b[n].key := b[n].item] else m
  }

  function Used(b: seq<Slot>): nat {
    if b == [] then 0 else Used(b[..|b| - 1]) + if b[|b| - 1].used then 1 else 0
  }

  /** A key is in the map exactly when some slot holds it. */
  lemma {:induction false} ContentsHas(b: seq<Slot>, k: Key)
    ensures k in Contents(b) <==> exists i :: 0 <= i < |b| && b[i].used && b[i].key == k
  {
    if b != [] {
      var n := |b| - 1;
      ContentsHas(b[..n], k);
      if i :| 0 <= i < n && b[i].used && b[i].key == k {
        assert b[..n][i] == b[i];
      }
    }
  }

  lemma {:induction false} ContentsAt(b: seq<Slot>, i: nat)
    requires Unique(b) && i < |b| && b[i].used
    ensures b[i].key in Contents(b) && Contents(b)[b[i].key] == b[i].item
  {
    var n := |b| - 1;
    if i < n {
      ContentsAt(b[..n], i);
    }
  }

  lemma {:induction false} ContentsSize(b: seq<Slot>)
    requires Unique(b)
    ensures |Contents(b)| == Used(b) <= |b|
  {
    if b != [] {
      var n := |b| - 1;
      ContentsSize(b[..n]);
      ContentsHas(b[..n], b[n].key);
      var m := Contents(b[..n]);
      if b[n].used {
        assert m[b[n].key := b[n].item].Keys == m.Keys + {b[n].key};
      }
    }
  }

  /** Writing a slot, claimed or already held by the key, is a map update. */
  lemma {:induction false} ContentsUpdate(b: seq<Slot>, i: nat, s: Slot)
    requires i < |b| && s.used && Unique(b) && Unique(b[i := s])
    requires b[i].used ==> b[i].key == s.key
    ensures Contents(b[i := s]) == Contents(b)[s.key := s.item]
  {
    var n := |b| - 1;
    var c := b[i := s];
    if i < n {
      assert c[..n] == b[..n][i := s];
      ContentsUpdate(b[..n], i, s);
      assert b[n].used ==> c[n].key != c[i].key;
    } else {
      assert c[..n] == b[..n];
    }
  }

  // ---- The command as a function of the map ----

  function Records(payload: seq<byte>, n: nat): (rs: seq<Record>)
    requires n * RECORD <= |payload|
    ensures |rs| == n
    ensures forall i :: 0 <= i < n ==> rs[i] == RecordAt(payload, i)
  {
    if n == 0 then [] else Records(payload, n - 1) + [RecordAt(payload, n - 1)]
  }

  function KeysOf(rs: seq<Record>): (ks: set<Key>)
    ensures forall k :: k in ks <==> exists i :: 0 <= i < |rs| && KeyOf(rs[i]) == k
  {
    set i | 0 <= i < |rs| :: KeyOf(rs[i])
  }

  /** How many slots the LEDs of a bank and those of a command need together. */
  function SlotsNeeded(m: Bank, rs: seq<Record>): nat {
    |m.Keys + KeysOf(rs)|
  }

  function Lookup(m: Bank, k: Key): Tracked {
    if k in m then m[k] else Fresh
  }

  function Fold(m: Bank, rs: seq<Record>, now: u32): Bank {
    if rs == [] then m
    else
      var n := |rs| - 1;
      var f := Fold(m, rs[..n], now);
      var t := Lookup(f, KeyOf(rs[n]));
      f[KeyOf(rs[n]) := t.(state := Apply(t.state, rs[n], now))]
  }

  /** The LED half of osdp_pd_internal_observe_command, before the refresh. */
  function Observe(m: Bank, cap: nat, payload: seq<byte>, now: u32): Result<Bank> {
    if payload == [] || |payload| % RECORD != 0 then Failure(BadPayload)
    else
      var rs := Records(payload, |payload| / RECORD);
      if SlotsNeeded(m, rs) > cap then Failure(InvalidArg)
      else Success(Fold(m, rs, now))
  }

  /** The LEDs that a payload names in its first `n` records: the first two bytes
      of each fourteen. */
  function Named(payload: seq<byte>, n: nat): set<Key>
    requires n * 14 <= |payload|
  {
    if n == 0 then {} else Named(payload, n - 1) + {(payload[(n - 1) * 14], payload[(n - 1) * 14 + 1])}
  }

  lemma {:induction false} RecordKey(payload: seq<byte>, i: nat)
    requires (i + 1) * 14 <= |payload|
    ensures KeyOf(RecordAt(payload, i)) == (payload[i * 14], payload[i * 14 + 1])
  {}

  lemma {:induction false} NamedKeys(payload: seq<byte>, n: nat)
    requires n * 14 <= |payload|
    ensures KeysOf(Records(payload, n)) == Named(payload, n)
  {
    hide RecordAt, KeysOf, KeyOf;
    if n == 0 {
      EmptyKeys();
    } else {
      NamedKeys(payload, n - 1);
      var rs := Records(payload, n);
      KeysOfLast(rs);
      assert rs[..n - 1] == Records(payload, n - 1);
      RecordKey(payload, n - 1);
    }
  }

  lemma EmptyKeys()
    ensures KeysOf([]) == {}
  {}

  /** An LED command is refused as malformed exactly if it is empty or not whole
      records, for want of room exactly if the LEDs tracked and those it names
      are together more than the slots, and is applied otherwise. */
  lemma {:induction false} ObserveIff(m: Bank, cap: nat, payload: seq<byte>, now: u32)
    ensures var r := Observe(m, cap, payload, now);
            var n := |payload| / 14;
            && (r == Failure(BadPayload) <==> payload == [] || |payload| % 14 != 0)
            && (r.Success? <==> payload != [] && |payload| % 14 == 0 && |m.Keys + Named(payload, n)| <= cap)
            && (r.Failure? ==> r.error == BadPayload || r.error == InvalidArg)
            && (r.Success? ==> r.value.Keys == m.Keys + Named(payload, n))
  {
    hide Fold, Records, KeysOf, Named;
    if |payload| % 14 == 0 {
      NamedKeys(payload, |payload| / 14);
      FoldKeys(m, Records(payload, |payload| / 14), now);
    }
  }

  lemma {:induction false} FoldKeys(m: Bank, rs: seq<Record>, now: u32)
    ensures Fold(m, rs, now).Keys == m.Keys + KeysOf(rs)
  {
    if rs != [] {
      var n := |rs| - 1;
      FoldKeys(m, rs[..n], now);
      KeysOfLast(rs);
    } else {
      assert KeysOf(rs) == {};
    }
  }

  lemma {:induction false} KeysOfLast(rs: seq<Record>)
    requires rs != []
    ensures KeysOf(rs) == KeysOf(rs[..|rs| - 1]) + {KeyOf(rs[|rs| - 1])}
  {
    var n := |rs| - 1;
    forall k | k in KeysOf(rs)
      ensures k in KeysOf(rs[..n]) + {KeyOf(rs[n])}
    {
      var i :| 0 <= i < |rs| && KeyOf(rs[i]) == k;
      assert i < n ==> rs[..n][i] == rs[i];
    }
    forall k | k in KeysOf(rs[..n]) + {KeyOf(rs[n])}
      ensures k in KeysOf(rs)
    {
      if k in KeysOf(rs[..n]) {
        var i :| 0 <= i < n && KeyOf(rs[..n][i]) == k;
        assert rs[i] == rs[..n][i];
      }
    }
  }

  // ---- The colour of an LED over a run ----

  /** What happens to the bank: a command payload arrives, or the PD ticks; each
      with its time and whether a listener is bound. */
  datatype Input = LedCommand(payload: seq<byte>, now: u32, listening: bool) | Tick(now: u32, listening: bool)

  /** pd_led_refresh on the map. */
  function Refreshed(m: Bank, now: u32, listening: bool): Bank {
    if listening then map k | k in m :: m[k].(lastColor := Color(m[k].state, now)) else m
  }

  function Next(m: Bank, cap: nat, input: Input): Bank {
    match input
    case LedCommand(payload, now, listening) =>
      var r := Observe(m, cap, payload, now);
      if r.Success? then Refreshed(r.value, now, listening) else m
    case Tick(now, listening) => Refreshed(m, now, listening)
  }

  function Run(cap: nat, inputs: seq<Input>): Bank {
    if inputs == [] then map[] else Next(Run(cap, inputs[..|inputs| - 1]), cap, inputs[|inputs| - 1])
  }

  /** Every record of every accepted command, in order, with its time. */
  function Applied(cap: nat, inputs: seq<Input>): seq<(Record, u32)> {
    if inputs == [] then []
    else
      var n := |inputs| - 1;
      Applied(cap, inputs[..n]) + AppliedBy(Run(cap, inputs[..n]), cap, inputs[n])
  }

  function AppliedBy(m: Bank, cap: nat, input: Input): seq<(Record, u32)> {
    if input.LedCommand? && Observe(m, cap, input.payload, input.now).Success?
    then Stamped(Records(input.payload, |input.payload| / RECORD), input.now)
    else []
  }

  function Stamped(rs: seq<Record>, now: u32): seq<(Record, u32)> {
    if rs == [] then [] else Stamped(rs[..|rs| - 1], now) + [(rs[|rs| - 1], now)]
  }

  /** One LED, fed only the records addressed to it. */
  function History(k: Key, rs: seq<(Record, u32)>): Led {
    if rs == [] then Dark
    else
      var n := |rs| - 1;
      var l := History(k, rs[..n]);
      if KeyOf(rs[n].0) == k then Apply(l, rs[n].0, rs[n].1) else l
  }

  /** osdp_pd_led_color on the map. */
  function ColorOf(m: Bank, k: Key, now: u32): byte {
    if k in m then Color(m[k].state, now) else BLACK
  }

  lemma {:induction false} FoldHistory(m: Bank, before: seq<(Record, u32)>, rs: seq<Record>, now: u32, k: Key)
    requires Lookup(m, k).state == History(k, before)
    ensures Lookup(Fold(m, rs, now), k).state == History(k, before + Stamped(rs, now))
  {
    if rs == [] {
      assert before + [] == before;
    } else {
      var n := |rs| - 1;
      FoldHistory(m, before, rs[..n], now, k);
      var all := before + Stamped(rs, now);
      assert all[..|all| - 1] == before + Stamped(rs[..n], now);
    }
  }

  lemma {:induction false} RunHistory(cap: nat, inputs: seq<Input>, k: Key)
    ensures Lookup(Run(cap, inputs), k).state == History(k, Applied(cap, inputs))
  {
    hide Next, AppliedBy;
    if inputs != [] {
      var n := |inputs| - 1;
      RunHistory(cap, inputs[..n], k);
      NextHistory(Run(cap, inputs[..n]), Applied(cap, inputs[..n]), cap, inputs[n], k);
    }
  }

  lemma {:induction false} NextHistory(m: Bank, before: seq<(Record, u32)>, cap: nat, input: Input, k: Key)
    requires Lookup(m, k).state == History(k, before)
    ensures Lookup(Next(m, cap, input), k).state == History(k, before + AppliedBy(m, cap, input))
  {
    hide Color, SlotsNeeded;
    assert before + [] == before;
    if input.LedCommand? && Observe(m, cap, input.payload, input.now).Success? {
      FoldHistory(m, before, Records(input.payload, |input.payload| / RECORD), input.now, k);
    }
  }

  /** Over every run of commands, accepted or refused, and ticks, the colour
      reported for any LED is that of one LED alone, dark to begin with and fed
      in order just the applied records addressed to it; and the bank never
      holds more LEDs than it has slots. */
  lemma {:induction false} ColorIsHistory(cap: nat, inputs: seq<Input>, k: Key, now: u32)
    ensures ColorOf(Run(cap, inputs), k, now) == Color(History(k, Applied(cap, inputs)), now)
    ensures |Run(cap, inputs)| <= cap
  {
    RunHistory(cap, inputs, k);
    RunFits(cap, inputs);
  }

  lemma {:induction false} RunFits(cap: nat, inputs: seq<Input>)
    ensures |Run(cap, inputs)| <= cap
  {
    hide Next;
    if inputs != [] {
      var n := |inputs| - 1;
      RunFits(cap, inputs[..n]);
      NextFits(Run(cap, inputs[..n]), cap, inputs[n]);
    }
  }

  lemma {:induction false} NextFits(m: Bank, cap: nat, input: Input)
    requires |m| <= cap
    ensures |Next(m, cap, input)| <= cap
  {
    hide Fold, Refreshed, Records, KeysOf;
    RefreshedSize(m, input.now, input.listening);
    if input.LedCommand? && Observe(m, cap, input.payload, input.now).Success? {
      var rs := Records(input.payload, |input.payload| / RECORD);
      var f := Fold(m, rs, input.now);
      FoldKeys(m, rs, input.now);
      assert |f| == |f.Keys|;
      RefreshedSize(f, input.now, input.listening);
    }
  }

  lemma {:induction false} RefreshedSize(m: Bank, now: u32, listening: bool)
    ensures |Refreshed(m, now, listening)| == |m|
  {
    hide Color;
    var r := Refreshed(m, now, listening);
    assert r.Keys == m.Keys && |r| == |r.Keys| && |m| == |m.Keys|;
  }

  // ---- What the listener sees ----

  /** A report of the LED callback. */
  datatype Report = Report(key: Key, color: byte)

  /** The colours a listener displays: black until told otherwise. */
  function Display(reports: seq<Report>, k: Key): byte {
    if reports == [] then BLACK
    else
      var n := |reports| - 1;
      if reports[n].key == k then reports[n].color else Display(reports[..n], k)
  }

  /** The listener's display agrees with what the bank last reported. */
  ghost predicate InStep(m: Bank, reports: seq<Report>) {
    forall k: Key :: Lookup(m, k).lastColor == Display(reports, k)
  }

  function RefreshSlot(s: Slot, now: u32): Slot {
    if s.used then s.(item := s.item.(lastColor := Color(s.item.state, now))) else s
  }

  lemma {:induction false} ContentsRefreshed(b: seq<Slot>, c: seq<Slot>, now: u32)
    requires |b| == |c| && forall i :: 0 <= i < |b| ==> c[i] == RefreshSlot(b[i], now)
    ensures Contents(c) == Refreshed(Contents(b), now, true)
  {
    hide Color;
    if b != [] {
      var n := |b| - 1;
      ContentsRefreshed(b[..n], c[..n], now);
    }
  }

  /** After a refresh the display shows the colour of every LED. */
  lemma {:induction false} DisplayIsColor(m: Bank, reports: seq<Report>, now: u32, k: Key)
    requires InStep(Refreshed(m, now, true), reports)
    ensures Display(reports, k) == ColorOf(m, k, now)
  {
    hide Color;
    assert Lookup(Refreshed(m, now, true), k).lastColor == Display(reports, k);
  }

  lemma {:induction false} ReportKeepsStep(m: Bank, reports: seq<Report>, k: Key, t: Tracked)
    requires InStep(m, reports)
    ensures InStep(m[k := t], reports + [Report(k, t.lastColor)])
  {
    var all := reports + [Report(k, t.lastColor)];
    assert all[..|all| - 1] == reports;
    forall q: Key
      ensures Lookup(m[k := t], q).lastColor == Display(all, q)
    {
      assert Lookup(m, q).lastColor == Display(reports, q);
    }
  }

  lemma {:induction false} FoldKeepsStep(m: Bank, rs: seq<Record>, now: u32, reports: seq<Report>)
    requires InStep(m, reports)
    ensures InStep(Fold(m, rs, now), reports)
  {
    if rs != [] {
      FoldKeepsStep(m, rs[..|rs| - 1], now, reports);
    }
  }

  // ---- The bank ----

  /** The leds array of osdp_pd_t; `reports` is what led_cb has been told. */
  class LedBank {
    const slots: array<Slot>
    var reports: seq<Report>

    ghost function View(): Bank
      reads slots
    {
      Contents(slots[..])
    }

    ghost predicate Valid()
      reads this, slots
    {
      Unique(slots[..]) && InStep(View(), reports)
    }

    constructor (cap: nat)
      ensures Valid() && View() == map[] && reports == [] && fresh(slots) && slots.Length == cap
    {
      slots := new Slot[cap](_ => Slot(false, (0, 0), Fresh));
      reports := [];
      new;
      forall k: Key
        ensures k !in View()
      {
        ContentsHas(slots[..], k);
      }
      assert View() == map[];
    }

    /** pd_led_slot_find: the position of the key's slot, or the capacity. */
    method Find(k: Key) returns (i: nat)
      requires Unique(slots[..])
      ensures i == slots.Length <==> k !in View()
      ensures i < slots.Length ==> slots[i].used && slots[i].key == k && View()[k] == slots[i].item
      ensures i <= slots.Length
    {
      ContentsHas(slots[..], k);
      i := 0;
      while i < slots.Length
        invariant i <= slots.Length
        invariant forall j :: 0 <= j < i ==> !(slots[j].used && slots[j].key == k)
      {
        if slots[i].used && slots[i].key == k {
          ContentsAt(slots[..], i);
          return;
        }
        i := i + 1;
      }
    }

    /** pd_led_slots_free. */
    method CountFree() returns (n: nat)
      requires Unique(slots[..])
      ensures n == slots.Length - |View()|
    {
      n := 0;
      for i := 0 to slots.Length
        invariant n == i - Used(slots[..i])
      {
        assert slots[..i + 1][..i] == slots[..i];
        if !slots[i].used {
          n := n + 1;
        }
      }
      assert slots[..slots.Length] == slots[..];
      ContentsSize(slots[..]);
    }

    /** pd_led_slot: the key's slot, claiming the first free one on first
        sighting. Fails only when every slot belongs to another LED. */
    method Claim(k: Key) returns (i: nat)
      requires Unique(slots[..])
      modifies slots
      ensures Unique(slots[..])
      ensures i == slots.Length <==> k !in old(View()) && |old(View())| == slots.Length
      ensures i <= slots.Length
      ensures i == slots.Length ==> slots[..] == old(slots[..])
      ensures i < slots.Length ==>
                && slots[i].used && slots[i].key == k && slots[i].item == Lookup(old(View()), k)
                && View() == old(View())[k := slots[i].item]
    {
      i := Find(k);
      ContentsSize(slots[..]);
      if i < slots.Length {
        return;
      }
      i := 0;
      while i < slots.Length
        invariant i <= slots.Length && slots[..] == old(slots[..])
        invariant Used(slots[..i]) == i
      {
        assert slots[..i + 1][..i] == slots[..i];
        if !slots[i].used {
          ContentsHas(slots[..], k);
          UsedBelow(slots[..], i);
          var s := Slot(true, k, Fresh);
          ContentsUpdate(slots[..], i, s);
          slots[i] := s;
          assert slots[..] == old(slots[..])[i := s];
          return;
        }
        i := i + 1;
      }
      assert slots[..slots.Length] == slots[..];
    }

    /** Whether record `i` repeats the key of an earlier one. */
    method SeenEarlier(payload: seq<byte>, i: nat, ghost rs: seq<Record>) returns (seen: bool)
      requires i < |rs| && |rs| * RECORD <= |payload| && rs == Records(payload, |rs|)
      ensures seen <==> KeyOf(rs[i]) in KeysOf(rs[..i])
    {
      hide RecordAt;
      var k := KeyOf(RecordAt(payload, i));
      seen := false;
      var j := 0;
      while j < i && !seen
        invariant j <= i
        invariant seen <==> exists l :: 0 <= l < j && KeyOf(rs[..i][l]) == k
      {
        seen := KeyOf(RecordAt(payload, j)) == k;
        assert rs[..i][j] == RecordAt(payload, j);
        j := j + 1;
      }
    }

    /** pd_led_bank_can_fit: exactly whether the LEDs tracked already and those
        named by the command fit the bank together. */
    method CanFit(payload: seq<byte>, count: nat) returns (fits: bool)
      requires Unique(slots[..]) && count * RECORD <= |payload|
      ensures fits <==> SlotsNeeded(View(), Records(payload, count)) <= slots.Length
    {
      hide RecordAt, KeysOf, SlotsNeeded, Contents;
      ghost var rs := Records(payload, count);
      ghost var m := View();
      var needed := 0;
      NoKeys(m);
      for i := 0 to count
        invariant SlotsNeeded(m, rs[..i]) == |m| + needed
      {
        var k := KeyOf(RecordAt(payload, i));
        NextKey(m, rs, i);
        var at := Find(k);
        if at == slots.Length {
          var seen := SeenEarlier(payload, i, rs);
          if !seen {
            needed := needed + 1;
          }
        }
      }
      assert rs[..count] == rs;
      var free := CountFree();
      fits := needed <= free;
    }

    /** Write back the applied state of a claimed slot. */
    method Write(i: nat, item: Tracked)
      requires Unique(slots[..]) && i < slots.Length && slots[i].used
      modifies slots
      ensures Unique(slots[..]) && View() == old(View())[slots[i].key := item]
      ensures slots[i].key == old(slots[i].key)
      ensures slots[..] == old(slots[..])[i := old(slots[i]).(item := item)]
    {
      var s := slots[i].(item := item);
      ContentsUpdate(slots[..], i, s);
      slots[i] := s;
      assert slots[..] == old(slots[..])[i := s];
    }

    /** pd_led_refresh, with a listener bound or not. */
    method Refresh(now: u32, listening: bool)
      requires Valid()
      modifies this, slots
      ensures Valid()
      ensures View() == Next(old(View()), slots.Length, Tick(now, listening))
      ensures !listening ==> reports == old(reports)
    {
      hide Color;
      if !listening {
        return;
      }
      for i := 0 to slots.Length
        invariant Valid()
        invariant forall j :: 0 <= j < i ==> slots[j] == RefreshSlot(old(slots[..])[j], now)
        invariant forall j :: i <= j < slots.Length ==> slots[j] == old(slots[..])[j]
      {
        if slots[i].used {
          var color := Color(slots[i].item.state, now);
          if color != slots[i].item.lastColor {
            var item := slots[i].item.(lastColor := color);
            ReportKeepsStep(View(), reports, slots[i].key, item);
            Write(i, item);
            reports := reports + [Report(slots[i].key, color)];
          }
        }
      }
      ContentsRefreshed(old(slots[..]), slots[..], now);
    }

    /** The LED half of osdp_pd_internal_observe_command: all of the records, in
        order, or nothing. */
    method ObserveLed(payload: seq<byte>, now: u32, listening: bool) returns (r: Result<()>)
      requires Valid()
      modifies this, slots
      ensures Valid()
      ensures View() == Next(old(View()), slots.Length, LedCommand(payload, now, listening))
      ensures match Observe(old(View()), slots.Length, payload, now)
              case Success(m) => r == Success(()) && View() == Refreshed(m, now, listening)
              case Failure(e) => r == Failure(e) && slots[..] == old(slots[..]) && reports == old(reports)
    {
      if payload == [] || |payload| % RECORD != 0 {
        return Failure(BadPayload);
      }
      var count := |payload| / RECORD;
      var fits := CanFit(payload, count);
      if !fits {
        return Failure(InvalidArg);
      }
      ApplyAll(payload, count, now);
      FoldKeepsStep(old(View()), Records(payload, count), now, reports);
      Refresh(now, listening);
      r := Success(());
    }

    /** The record loop. The pre-check has established that no claim fails. */
    method ApplyAll(payload: seq<byte>, count: nat, now: u32)
      requires Unique(slots[..]) && count * RECORD <= |payload|
      requires SlotsNeeded(View(), Records(payload, count)) <= slots.Length
      modifies slots
      ensures Unique(slots[..]) && View() == Fold(old(View()), Records(payload, count), now)
    {
      hide Apply, RecordAt, SlotsNeeded;
      ghost var rs := Records(payload, count);
      for i := 0 to count
        invariant Unique(slots[..])
        invariant View() == Fold(old(View()), rs[..i], now)
      {
        var rec := RecordAt(payload, i);
        NeverFull(old(View()), rs, i, now, slots.Length);
        var at := Claim(KeyOf(rec));
        Write(at, slots[at].item.(state := Apply(slots[at].item.state, rec, now)));
        assert rs[..i + 1][..i] == rs[..i];
      }
      assert rs[..count] == rs;
    }

    /** osdp_pd_led_color. */
    method ColorNow(k: Key, now: u32) returns (c: byte)
      requires Unique(slots[..])
      ensures c == ColorOf(View(), k, now)
    {
      var i := Find(k);
      c := if i < slots.Length then Color(slots[i].item.state, now) else BLACK;
    }
  }

  lemma {:induction false} UsedBelow(b: seq<Slot>, i: nat)
    requires i < |b| && Used(b[..i]) == i && !b[i].used
    ensures Used(b) < |b|
  {
    UsedAtMost(b, i + 1);
    assert b[..i + 1][..i] == b[..i] && b[..|b|] == b;
  }

  lemma {:induction false} UsedAtMost(b: seq<Slot>, i: nat)
    requires i <= |b|
    ensures Used(b) <= Used(b[..i]) + |b| - i
    decreases |b|
  {
    var n := |b| - 1;
    if i <= n {
      UsedAtMost(b[..n], i);
      assert b[..n][..i] == b[..i];
    } else {
      assert b[..i] == b;
    }
  }

  lemma {:induction false} NoKeys(m: Bank)
    ensures SlotsNeeded(m, []) == |m|
  {
    assert m.Keys + KeysOf([]) == m.Keys;
    assert |m| == |m.Keys|;
  }

  /** One more record needs one more slot exactly when its LED is neither in the
      bank nor named before. */
  lemma {:induction false} NextKey(m: Bank, rs: seq<Record>, i: nat)
    requires i < |rs|
    ensures SlotsNeeded(m, rs[..i + 1]) ==
            SlotsNeeded(m, rs[..i]) + if KeyOf(rs[i]) in m || KeyOf(rs[i]) in KeysOf(rs[..i]) then 0 else 1
  {
    hide KeysOf;
    KeysOfLast(rs[..i + 1]);
    assert rs[..i + 1][..i] == rs[..i];
    var before, k := m.Keys + KeysOf(rs[..i]), KeyOf(rs[i]);
    assert m.Keys + KeysOf(rs[..i + 1]) == before + {k};
    assert k in before ==> before + {k} == before;
  }

  lemma {:induction false} KeysOfPrefix(rs: seq<Record>, i: nat)
    requires i < |rs|
    ensures KeysOf(rs[..i]) <= KeysOf(rs) && KeyOf(rs[i]) in KeysOf(rs)
  {
    forall q | q in KeysOf(rs[..i])
      ensures q in KeysOf(rs)
    {
      var j :| 0 <= j < i && KeyOf(rs[..i][j]) == q;
      assert rs[j] == rs[..i][j];
    }
  }

  /** While the records are applied, an LED without a slot always finds one. */
  lemma {:induction false} NeverFull(m: Bank, rs: seq<Record>, i: nat, now: u32, cap: nat)
    requires i < |rs| && SlotsNeeded(m, rs) <= cap
    ensures var f := Fold(m, rs[..i], now);
            KeyOf(rs[i]) in f || |f| < cap
  {
    hide KeysOf;
    var f, k := Fold(m, rs[..i], now), KeyOf(rs[i]);
    FoldKeys(m, rs[..i], now);
    KeysOfPrefix(rs, i);
    if k !in f {
      Smaller(f.Keys + {k}, m.Keys + KeysOf(rs));
      assert |f| == |f.Keys|;
    }
  }

  lemma {:induction false} Smaller(a: set<Key>, b: set<Key>)
    requires a <= b
    ensures |a| <= |b|
  {
    assert b == a + (b - a);
  }
}
