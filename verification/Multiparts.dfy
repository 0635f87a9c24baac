/** Multi-part messages (multipart.c, section 5.10): the fragment codec, the
    sending iterator, the reassembler, and the vendor rule of osdp_MFG. */
module Multiparts {
  import opened Bytes
  import opened Codes

  const HEADER := 6
  const DEFAULT_FRAGMENT := 128
  type u16 = n: nat | n < U16

  /** osdp_mp_fragment_t. */
  datatype Fragment = Fragment(total: u16, offset: u16, data: seq<byte>)

  /** osdp_mp_is_early_termination. */
  predicate EarlyTermination(f: Fragment) {
    f.data == [] && f.total > 0 && f.offset >= f.total
  }

  /** The bounds rule shared by decoder and builder. */
  predicate WellFormed(f: Fragment) {
    EarlyTermination(f) || f.offset + |f.data| <= f.total
  }

  // ---- The codec ----

  /** osdp_mp_fragment_decode. */
  function DecodeFragment(p: seq<byte>): Result<Fragment> {
    if |p| < HEADER then Failure(BadPayload)
    else if Le16(p[4], p[5]) != |p| - HEADER then Failure(BadPayload)
    else
      Le16Value(p[0], p[1]);
      Le16Value(p[2], p[3]);
      var f := Fragment(Le16(p[0], p[1]), Le16(p[2], p[3]), p[HEADER..]);
      if WellFormed(f) then Success(f) else Failure(BadPayload)
  }

  /** osdp_mp_fragment_build into `cap` bytes. */
  function BuildFragment(f: Fragment, cap: nat): Result<seq<byte>> {
    if |f.data| >= U16 then Failure(InvalidArg)
    else if !WellFormed(f) then Failure(InvalidArg)
    else if HEADER + |f.data| > cap then Failure(BufferTooSmall)
    else
      Success([Low(f.total), High(f.total), Low(f.offset), High(f.offset), Low(|f.data|), High(|f.data|)] + f.data)
  }

  lemma {:induction false} FragmentRoundTrip(f: Fragment, cap: nat)
    requires BuildFragment(f, cap).Success?
    ensures DecodeFragment(BuildFragment(f, cap).value) == Success(f)
  {
    hide Le16, Low, High, EarlyTermination;
    Le16RoundTrip(f.total);
    Le16RoundTrip(f.offset);
    Le16RoundTrip(|f.data|);
    assert BuildFragment(f, cap).value[HEADER..] == f.data;
  }

  /** The header on the wire: total, offset and length, low bytes first. */
  lemma {:induction false} FragmentLayout(f: Fragment, cap: nat)
    requires BuildFragment(f, cap).Success?
    ensures var p := BuildFragment(f, cap).value;
            && |p| == 6 + |f.data| && p[6..] == f.data
            && p[0] as int + 256 * p[1] as int == f.total
            && p[2] as int + 256 * p[3] as int == f.offset
            && p[4] as int + 256 * p[5] as int == |f.data|
  {}

  /** A fragment ends the transfer exactly if it has no data and lies at or past
      the end of a message that it declares not to be empty. */
  lemma {:induction false} TerminatesIff(r: Reassembly, f: Fragment)
    requires Sound(r) && WellFormed(f)
    ensures Push(r, f).result == Success(Terminated) <==> f.data == [] && 0 < f.total <= f.offset
    ensures Push(r, f).result == Success(Terminated) ==> !Push(r, f).reasm.active
  {}

  /** Any other fragment is taken exactly if it begins a message that fits, or
      continues the one in progress without a gap; overlaps and repeats are. */
  lemma {:induction false} TakesIff(r: Reassembly, f: Fragment)
    requires Sound(r) && WellFormed(f) && !(f.data == [] && 0 < f.total <= f.offset)
    ensures Push(r, f).result.Success? <==>
            if f.offset == 0 then 0 < f.total <= |r.buf|
            else r.active && f.total == r.total && f.offset <= r.received
  {}

  lemma {:induction false} FragmentSpelledOnce(p: seq<byte>)
    requires DecodeFragment(p).Success?
    ensures BuildFragment(DecodeFragment(p).value, |p|) == Success(p)
  {
    hide Le16, Low, High, EarlyTermination;
    Le16Inverse(p[0], p[1]);
    Le16Inverse(p[2], p[3]);
    Le16Inverse(p[4], p[5]);
    LengthBound(p);
    assert p == [p[0], p[1], p[2], p[3], p[4], p[5]] + p[HEADER..];
  }

  lemma {:induction false} LengthBound(p: seq<byte>)
    requires |p| >= HEADER && Le16(p[4], p[5]) == |p| - HEADER
    ensures |p[HEADER..]| < U16
  {
    Le16Value(p[4], p[5]);
  }

  // ---- The reassembler ----

  datatype State = InProgress | Complete | Terminated

  /** osdp_mp_reasm_t; `buf` is the whole bound buffer. */
  datatype Reassembly = Reassembly(buf: seq<byte>, total: u16, received: u16, active: bool)

  datatype Pushed = Pushed(reasm: Reassembly, result: Result<State>)

  function Cleared(r: Reassembly): Reassembly {
    r.(total := 0, received := 0, active := false)
  }

  /** The copy step, once a fragment is accepted. */
  function Take(r: Reassembly, f: Fragment): Pushed
    requires f.offset + |f.data| <= f.total == r.total <= |r.buf| && r.received <= r.total
  {
    var end := f.offset + |f.data|;
    var r' := r.(buf := Overwrite(r.buf, f.offset, f.data), received := if end > r.received then end else r.received);
    Pushed(r', Success(if r'.received == r'.total then Complete else InProgress))
  }

  /** What init, reset and push keep. */
  predicate Sound(r: Reassembly) {
    r.received <= r.total && r.total <= |r.buf|
  }

  /** osdp_mp_reasm_push, on a fragment the decoder or the iterator produced. */
  function Push(r: Reassembly, f: Fragment): Pushed
    requires Sound(r) && WellFormed(f)
  {
    if EarlyTermination(f) then Pushed(Cleared(r), Success(Terminated))
    else if f.offset == 0 then
      if f.total == 0 then Pushed(r, Failure(BadPayload))
      else if f.total > |r.buf| then Pushed(r, Failure(BufferTooSmall))
      else Take(r.(total := f.total, received := 0, active := true), f)
    else if !r.active || f.total != r.total then Pushed(r, Failure(BadPayload))
    else if f.offset > r.received then Pushed(r, Failure(BadPayload))
    else Take(r, f)
  }

  lemma {:induction false} PushKeepsSound(r: Reassembly, f: Fragment)
    requires Sound(r) && WellFormed(f)
    ensures Sound(Push(r, f).reasm) && |Push(r, f).reasm.buf| == |r.buf|
    ensures Push(r, f).result.Failure? ==> Push(r, f).reasm == r
  {}

  // ---- Slices of one message ----

  /** A fragment that carries a slice of `m` and declares its length. */
  predicate SliceOf(f: Fragment, m: seq<byte>) {
    && |m| < U16 && f.total == |m| && f.offset + |f.data| <= |m|
    && f.data == m[f.offset..f.offset + |f.data|]
  }

  /** What is in the buffer is the beginning of `m`. */
  predicate Holds(r: Reassembly, m: seq<byte>) {
    Sound(r) && (r.active ==> r.total == |m| && r.buf[..r.received] == m[..r.received])
  }

  lemma {:induction false} PushKeepsPrefix(r: Reassembly, f: Fragment, m: seq<byte>)
    requires Holds(r, m) && (SliceOf(f, m) || EarlyTermination(f))
    ensures Holds(Push(r, f).reasm, m)
    ensures Push(r, f).result == Success(Complete) ==>
              |m| <= |Push(r, f).reasm.buf| && Push(r, f).reasm.buf[..|m|] == m
  {
    var p := Push(r, f);
    if p.result.Success? && !EarlyTermination(f) {
      var before := if f.offset == 0 then r.(total := f.total, received := 0, active := true) else r;
      OverwritePrefix(before, f, m);
    }
  }

  lemma {:induction false} OverwritePrefix(r: Reassembly, f: Fragment, m: seq<byte>)
    requires SliceOf(f, m) && Sound(r) && r.total == |m| && r.buf[..r.received] == m[..r.received]
    requires f.offset <= r.received
    ensures var t := Take(r, f).reasm; t.buf[..t.received] == m[..t.received]
  {
    var t := Take(r, f).reasm;
    forall i | 0 <= i < t.received ensures t.buf[i] == m[i] {
      if i < f.offset || i >= f.offset + |f.data| {
        assert r.buf[..r.received][i] == m[..r.received][i];
      } else {
        assert f.data[i - f.offset] == m[i];
      }
    }
  }

  /** Push front to back; the last result is reported. */
  function PushAll(r: Reassembly, fs: seq<Fragment>): (p: Pushed)
    requires Sound(r) && forall i :: 0 <= i < |fs| ==> WellFormed(fs[i])
    ensures Sound(p.reasm) && |p.reasm.buf| == |r.buf|
    decreases |fs|
  {
    if fs == [] then Pushed(r, Success(InProgress))
    else
      PushKeepsSound(r, fs[0]);
      var p := Push(r, fs[0]);
      if |fs| == 1 then p else PushAll(p.reasm, fs[1..])
  }

  /** Reassembly tolerates repeats, overlaps, restarts, rejected gaps and
      terminations: for every sequence of slices of `m` and early terminations
      of any kind, the buffer holds the beginning of `m`, and COMPLETE means it
      holds all of it. */
  lemma {:induction false} AnySlices(r: Reassembly, fs: seq<Fragment>, m: seq<byte>)
    requires Holds(r, m) && fs != []
    requires forall i :: 0 <= i < |fs| ==> SliceOf(fs[i], m) || EarlyTermination(fs[i])
    ensures forall i :: 0 <= i < |fs| ==> WellFormed(fs[i])
    ensures var p := PushAll(r, fs);
            Holds(p.reasm, m) && (p.result == Success(Complete) ==> |m| <= |p.reasm.buf| && p.reasm.buf[..|m|] == m)
    decreases |fs|
  {
    hide Push;
    PushKeepsPrefix(r, fs[0], m);
    PushKeepsSound(r, fs[0]);
    if |fs| > 1 {
      AnySlices(Push(r, fs[0]).reasm, fs[1..], m);
    }
  }

  // ---- The iterator ----

  /** osdp_mp_frag_iter_t. */
  datatype Iterator = Iterator(msg: seq<byte>, maxFrag: nat, offset: nat)

  /** osdp_mp_frag_iter_init. */
  function Iterate(msg: seq<byte>, maxFrag: nat): Iterator {
    Iterator(msg, if maxFrag > 0 then maxFrag else DEFAULT_FRAGMENT, 0)
  }

  /** The fragment osdp_mp_frag_iter_next fills in; lengths narrow to 16 bits. */
  function Current(it: Iterator): Fragment
    requires it.offset < |it.msg|
  {
    var n := Min(|it.msg| - it.offset, it.maxFrag);
    Fragment(|it.msg| % U16, it.offset % U16, it.msg[it.offset..it.offset + n])
  }

  function Remaining(it: Iterator): (fs: seq<Fragment>)
    requires it.maxFrag > 0
    decreases |it.msg| - it.offset
  {
    if it.offset >= |it.msg| then []
    else
      var f := Current(it);
      [f] + Remaining(it.(offset := it.offset + |f.data|))
  }

  lemma {:induction false} CurrentIsSlice(it: Iterator)
    requires it.maxFrag > 0 && it.offset < |it.msg| < U16
    ensures SliceOf(Current(it), it.msg) && Current(it).data != [] && Current(it).offset == it.offset
  {}

  /** Pushing what is left of an iterator completes the message. */
  lemma {:induction false} RemainingCompletes(r: Reassembly, it: Iterator)
    requires it.maxFrag > 0 && it.offset < |it.msg| < U16 && |it.msg| <= |r.buf|
    requires Holds(r, it.msg) && (it.offset > 0 ==> r.active && r.received == it.offset)
    ensures var fs := Remaining(it);
            && (forall i :: 0 <= i < |fs| ==> SliceOf(fs[i], it.msg))
            && PushAll(r, fs).result == Success(Complete)
            && PushAll(r, fs).reasm.buf[..|it.msg|] == it.msg
            && PushAll(r, fs).reasm.total == |it.msg|
    decreases |it.msg| - it.offset
  {
    var f := Current(it);
    CurrentIsSlice(it);
    PushKeepsPrefix(r, f, it.msg);
    var p := Push(r, f);
    assert p.result.Success? && p.reasm.received == it.offset + |f.data|;
    var next := it.(offset := it.offset + |f.data|);
    var fs := Remaining(it);
    assert fs[0] == f && fs[1..] == Remaining(next);
    PushKeepsSound(r, f);
    if next.offset < |it.msg| {
      RemainingCompletes(p.reasm, next);
      assert forall i :: 0 < i < |fs| ==> fs[i] == fs[1..][i - 1];
    } else {
      assert fs == [f];
    }
  }

  /** A first fragment makes the receiver forget an unfinished message. */
  lemma {:induction false} RestartForgets(r: Reassembly, f: Fragment)
    requires Sound(r) && WellFormed(f) && f.offset == 0 && 0 < f.total <= |r.buf| && !EarlyTermination(f)
    ensures Push(r, f) == Push(r.(active := false), f)
  {}

  /** Fragmenting and reassembling is the identity on every message of up to
      65535 bytes that fits the receiver, for every fragment size and whatever
      was being received before. */
  lemma {:induction false} FragmentThenReassemble(r: Reassembly, m: seq<byte>, maxFrag: nat)
    requires Sound(r) && 0 < |m| < U16 && |m| <= |r.buf|
    ensures Reassembled(r, m, maxFrag)
  {
    var it := Iterate(m, maxFrag);
    RemainingCompletes(r.(active := false), it);
    CurrentIsSlice(it);
    RestartForgets(r, Current(it));
  }

  /** Every fragment of `m` is one the codec accepts, and pushing them all
      completes with `m` as the message. */
  predicate Reassembled(r: Reassembly, m: seq<byte>, maxFrag: nat)
    requires Sound(r)
  {
    var fs := Remaining(Iterate(m, maxFrag));
    && (forall i :: 0 <= i < |fs| ==> WellFormed(fs[i]))
    && var p := PushAll(r, fs);
       p.result == Success(Complete) && p.reasm.buf[..p.reasm.total] == m
  }

  /** And on no other message: an empty one has no fragments, and one that is
      too long for the receiver or for sixteen bits never arrives whole. */
  lemma {:induction false} ReassembledIff(r: Reassembly, m: seq<byte>, maxFrag: nat)
    requires Sound(r)
    ensures Reassembled(r, m, maxFrag) <==> 0 < |m| < U16 && |m| <= |r.buf|
  {
    hide Push;
    if 0 < |m| < U16 && |m| <= |r.buf| {
      FragmentThenReassemble(r, m, maxFrag);
    }
  }

  /** At worst the narrowed total makes a receiver take the first bytes for the
      whole message. */
  lemma {:induction false} LongMessageCutShort(r: Reassembly, m: seq<byte>)
    requires Sound(r) && |m| == U16 + DEFAULT_FRAGMENT && |r.buf| >= DEFAULT_FRAGMENT
    ensures var f := Current(Iterate(m, 0));
            WellFormed(f) && Push(r, f).result == Success(Complete) && Push(r, f).reasm.total == DEFAULT_FRAGMENT
  {}

  // ---- The objects ----

  /** osdp_mp_reasm_t with its bound buffer. */
  class Reassembler {
    const buf: array<byte>
    var total: u16
    var received: u16
    var active: bool

    ghost function View(): Reassembly
      reads this, buf
    {
      Reassembly(buf[..], total, received, active)
    }

    /** osdp_mp_reasm_init. */
    constructor (cap: nat)
      ensures Sound(View()) && !active && fresh(buf) && buf.Length == cap
    {
      buf := new byte[cap](_ => 0);
      total, received, active := 0, 0, false;
    }

    /** osdp_mp_reasm_reset. */
    method Clear()
      modifies this
      ensures View() == Cleared(old(View()))
    {
      total, received, active := 0, 0, false;
    }

    /** osdp_mp_reasm_push. */
    method PushFragment(f: Fragment) returns (r: Result<State>)
      requires Sound(View()) && WellFormed(f)
      modifies this, buf
      ensures Pushed(View(), r) == Push(old(View()), f)
      ensures Sound(View())
    {
      PushKeepsSound(View(), f);
      if EarlyTermination(f) {
        Clear();
        return Success(Terminated);
      }
      if f.offset == 0 {
        if f.total == 0 {
          return Failure(BadPayload);
        }
        if f.total > buf.Length {
          return Failure(BufferTooSmall);
        }
        total, received, active := f.total, 0, true;
      } else {
        if !active || f.total != total {
          return Failure(BadPayload);
        }
        if f.offset > received {
          return Failure(BadPayload);
        }
      }
      CopyIn(buf, f.offset, f.data);
      var end := f.offset + |f.data|;
      if end > received {
        received := end;
      }
      r := Success(if received == total then Complete else InProgress);
    }
  }

  /** osdp_mp_frag_iter_t. */
  class FragmentIterator {
    const msg: seq<byte>
    const maxFrag: nat
    var offset: nat

    ghost function View(): Iterator
      reads this
    {
      Iterator(msg, maxFrag, offset)
    }

    constructor (m: seq<byte>, max: nat)
      ensures View() == Iterate(m, max)
    {
      msg := m;
      maxFrag := if max > 0 then max else DEFAULT_FRAGMENT;
      offset := 0;
    }

    /** osdp_mp_frag_iter_next: hands out the fragments of Remaining in order. */
    method Next() returns (f: Option<Fragment>)
      requires maxFrag > 0
      modifies this
      ensures f.None? <==> Remaining(old(View())) == []
      ensures f.None? ==> View() == old(View())
      ensures f.Some? ==> Remaining(old(View())) == [f.value] + Remaining(View())
    {
      if offset >= |msg| {
        return None;
      }
      var n := Min(|msg| - offset, maxFrag);
      f := Some(Fragment(|msg| % U16, offset % U16, msg[offset..offset + n]));
      offset := offset + n;
    }
  }

  // ---- osdp_MFG ----

  const VENDOR := 3

  type VendorCode = s: seq<byte> | |s| == VENDOR witness [0, 0, 0]

  /** mfg_vendor and mfg_reasm. */
  datatype Receiver = Receiver(vendor: VendorCode, reasm: Reassembly)

  /** The reply to osdp_MFG, with the message that is handed up, if any. */
  datatype MfgOutcome = Refused(nak: byte) | Acknowledged | Delivered(vendor: VendorCode, message: seq<byte>)

  datatype MfgStep = MfgStep(receiver: Receiver, outcome: MfgOutcome)

  /** handle_mfg_multipart, with a bound receiver. */
  function MfgReceive(s: Receiver, payload: seq<byte>): (step: MfgStep)
    requires Sound(s.reasm)
    ensures Sound(step.receiver.reasm) && |step.receiver.reasm.buf| == |s.reasm.buf|
    ensures step.outcome.Delivered? ==> step.outcome.message != []
  {
    var cleared := s.(reasm := Cleared(s.reasm));
    if |payload| < VENDOR then MfgStep(s, Refused(NAK_CMD_LENGTH))
    else
      var v: VendorCode := payload[..VENDOR];
      match DecodeFragment(payload[VENDOR..])
      case Failure(_) => MfgStep(cleared, Refused(NAK_RECORD_INVALID))
      case Success(f) =>
        DecodedWellFormed(payload[VENDOR..]);
        if f.offset != 0 && s.vendor != v then MfgStep(cleared, Refused(NAK_RECORD_INVALID))
        else
          PushKeepsSound(s.reasm, f);
          CompleteNotEmpty(s.reasm, f);
          var p := Push(s.reasm, f);
          if p.result.Failure? then MfgStep(cleared.(vendor := v), Refused(NAK_RECORD_INVALID))
          else if p.result.value != Complete then MfgStep(Receiver(v, p.reasm), Acknowledged)
          else
            MfgStep(Receiver(v, Cleared(p.reasm)), Delivered(v, p.reasm.buf[..p.reasm.total]))
  }

  lemma {:induction false} CompleteNotEmpty(r: Reassembly, f: Fragment)
    requires Sound(r) && WellFormed(f)
    ensures Push(r, f).result == Success(Complete) ==> Push(r, f).reasm.total > 0
  {}

  lemma {:induction false} DecodedWellFormed(p: seq<byte>)
    requires DecodeFragment(p).Success?
    ensures WellFormed(DecodeFragment(p).value)
  {}

  /** A payload without a whole vendor code is too short a command and changes
      nothing; any other refusal is of the record and ends the transfer. */
  lemma {:induction false} MfgRefusals(s: Receiver, payload: seq<byte>)
    requires Sound(s.reasm) && MfgReceive(s, payload).outcome.Refused?
    ensures var step := MfgReceive(s, payload);
            if |payload| < 3 then step == MfgStep(s, Refused(0x02))
            else step.outcome == Refused(0x09) && !step.receiver.reasm.active
  {
    hide DecodeFragment, Push;
  }

  // ---- Where every delivered byte comes from ----

  /** `payload` was sent under `v` and carries byte `i` of a message of `total`
      bytes, with the value `b`. */
  predicate Carries(payload: seq<byte>, v: VendorCode, total: nat, i: nat, b: byte) {
    |payload| >= VENDOR && payload[..VENDOR] == v && DecodeFragment(payload[VENDOR..]).Success? &&
    var f := DecodeFragment(payload[VENDOR..]).value;
    f.total == total && f.offset <= i < f.offset + |f.data| && f.data[i - f.offset] == b
  }

  /** Some payload so far carries the byte. */
  predicate Sent(history: seq<seq<byte>>, v: VendorCode, total: nat, i: nat, b: byte) {
    exists k :: 0 <= k < |history| && Carries(history[k], v, total, i, b)
  }

  /** Every byte received so far was sent under the claimed vendor code, for a
      message of this length, at this place. */
  predicate Sourced(s: Receiver, history: seq<seq<byte>>) {
    && Sound(s.reasm)
    && (s.reasm.active ==>
          forall i :: 0 <= i < s.reasm.received ==> Sent(history, s.vendor, s.reasm.total, i, s.reasm.buf[i]))
  }

  lemma {:induction false} SentLater(history: seq<seq<byte>>, payload: seq<byte>, v: VendorCode, total: nat, i: nat, b: byte)
    ensures Sent(history, v, total, i, b) || Carries(payload, v, total, i, b) ==> Sent(history + [payload], v, total, i, b)
  {
    hide Carries;
    var h := history + [payload];
    if Carries(payload, v, total, i, b) {
      assert Carries(h[|history|], v, total, i, b);
    }
    if k :| 0 <= k < |history| && Carries(history[k], v, total, i, b) {
      assert Carries(h[k], v, total, i, b);
    }
  }

  /** What an accepted fragment leaves in the buffer. */
  lemma {:induction false} PushedBytes(r: Reassembly, f: Fragment, i: nat)
    requires Sound(r) && WellFormed(f) && Push(r, f).result.Success? && !EarlyTermination(f)
    requires i < Push(r, f).reasm.received
    ensures var p := Push(r, f).reasm;
            && i < |p.buf| && p.active && p.total == f.total
            && (if f.offset <= i < f.offset + |f.data| then p.buf[i] == f.data[i - f.offset]
                else r.active && f.offset != 0 && r.total == f.total && i < r.received && p.buf[i] == r.buf[i])
  {}

  lemma {:induction false} SourcedLater(s: Receiver, payload: seq<byte>, history: seq<seq<byte>>)
    requires Sourced(s, history)
    ensures Sourced(s, history + [payload])
  {
    hide Sent;
    if s.reasm.active {
      forall i | 0 <= i < s.reasm.received
        ensures Sent(history + [payload], s.vendor, s.reasm.total, i, s.reasm.buf[i])
      {
        SentLater(history, payload, s.vendor, s.reasm.total, i, s.reasm.buf[i]);
      }
    }
  }

  lemma {:induction false} MfgKeepsSources(s: Receiver, payload: seq<byte>, history: seq<seq<byte>>)
    requires Sourced(s, history)
    ensures var step := MfgReceive(s, payload);
            var h := history + [payload];
            && Sourced(step.receiver, h)
            && (step.outcome.Delivered? ==>
                  forall i :: 0 <= i < |step.outcome.message| ==>
                    Sent(h, step.outcome.vendor, |step.outcome.message|, i, step.outcome.message[i]))
  {
    hide DecodeFragment, Push, Sent, Carries;
    SourcedLater(s, payload, history);
    if |payload| >= VENDOR && DecodeFragment(payload[VENDOR..]).Success? {
      var f := DecodeFragment(payload[VENDOR..]).value;
      DecodedWellFormed(payload[VENDOR..]);
      PushKeepsSound(s.reasm, f);
      if !(f.offset != 0 && s.vendor != payload[..VENDOR]) && Push(s.reasm, f).result.Success? {
        PushSources(s, payload, history, f);
        var step := MfgReceive(s, payload);
        var p := Push(s.reasm, f).reasm;
        if step.outcome.Delivered? {
          forall i | 0 <= i < |step.outcome.message|
            ensures Sent(history + [payload], step.outcome.vendor, |step.outcome.message|, i, step.outcome.message[i])
          {
            assert step.outcome.message[i] == p.buf[i];
          }
        }
      }
    }
  }

  lemma {:induction false} PushSources(s: Receiver, payload: seq<byte>, history: seq<seq<byte>>, f: Fragment)
    requires Sourced(s, history) && |payload| >= VENDOR && DecodeFragment(payload[VENDOR..]) == Success(f) && WellFormed(f)
    requires f.offset == 0 || s.vendor == payload[..VENDOR]
    requires Push(s.reasm, f).result.Success?
    ensures Sourced(Receiver(payload[..VENDOR], Push(s.reasm, f).reasm), history + [payload])
    ensures Push(s.reasm, f).result == Success(Complete) ==>
              Push(s.reasm, f).reasm.active && Push(s.reasm, f).reasm.received == Push(s.reasm, f).reasm.total
  {
    hide DecodeFragment, Sent;
    var p := Push(s.reasm, f).reasm;
    var v: VendorCode := payload[..VENDOR];
    PushKeepsSound(s.reasm, f);
    if !EarlyTermination(f) {
      forall i | 0 <= i < p.received
        ensures Sent(history + [payload], v, p.total, i, p.buf[i])
      {
        PushedBytes(s.reasm, f, i);
        SentLater(history, payload, v, p.total, i, p.buf[i]);
      }
    }
  }

  /** A receiver after a series of payloads, and every outcome. */
  datatype MfgServed = MfgServed(receiver: Receiver, outcomes: seq<MfgOutcome>)

  function MfgAll(s: Receiver, payloads: seq<seq<byte>>): (r: MfgServed)
    requires Sound(s.reasm)
    ensures |r.outcomes| == |payloads|
    decreases |payloads|
  {
    if payloads == [] then MfgServed(s, [])
    else
      var step := MfgReceive(s, payloads[0]);
      var rest := MfgAll(step.receiver, payloads[1..]);
      MfgServed(rest.receiver, [step.outcome] + rest.outcomes)
  }

  /** Over any osdp_MFG traffic, every byte of a delivered message was sent under
      the vendor code it is delivered with, at its place in a message of just
      that length. */
  lemma {:induction false} DeliveredWasSent(s: Receiver, before: seq<seq<byte>>, payloads: seq<seq<byte>>, n: nat, i: nat)
    requires Sourced(s, before) && n < |payloads|
    requires MfgAll(s, payloads).outcomes[n].Delivered? && i < |MfgAll(s, payloads).outcomes[n].message|
    ensures var o := MfgAll(s, payloads).outcomes[n];
            Sent(before + payloads, o.vendor, |o.message|, i, o.message[i])
    decreases |payloads|
  {
    hide MfgReceive, Sent, Sourced;
    SourcedSound(s, before);
    MfgKeepsSources(s, payloads[0], before);
    var step := MfgReceive(s, payloads[0]);
    var h := before + [payloads[0]];
    assert h + payloads[1..] == before + payloads;
    var o := MfgAll(s, payloads).outcomes[n];
    if n == 0 {
      SentEarlier(h, payloads[1..], o.vendor, |o.message|, i, o.message[i]);
    } else {
      SourcedSound(step.receiver, h);
      DeliveredWasSent(step.receiver, h, payloads[1..], n - 1, i);
    }
  }

  lemma {:induction false} SourcedSound(s: Receiver, history: seq<seq<byte>>)
    requires Sourced(s, history)
    ensures Sound(s.reasm)
  {}

  lemma {:induction false} SentEarlier(history: seq<seq<byte>>, more: seq<seq<byte>>, v: VendorCode, total: nat, i: nat, b: byte)
    requires Sent(history, v, total, i, b)
    ensures Sent(history + more, v, total, i, b)
  {
    hide Carries;
    var k :| 0 <= k < |history| && Carries(history[k], v, total, i, b);
    assert (history + more)[k] == history[k];
  }

  /** Whatever else is on the line, if every fragment sent under `v` is a slice of
      `m`, a message delivered under `v` is `m`. */
  lemma {:induction false} DeliveredIsTheMessage(s: Receiver, payloads: seq<seq<byte>>, n: nat, m: seq<byte>)
    requires Sound(s.reasm) && !s.reasm.active && n < |payloads| && MfgAll(s, payloads).outcomes[n].Delivered?
    requires var v := MfgAll(s, payloads).outcomes[n].vendor;
             forall k :: 0 <= k < |payloads| && |payloads[k]| >= VENDOR && payloads[k][..VENDOR] == v
                         && DecodeFragment(payloads[k][VENDOR..]).Success? ==>
               var f := DecodeFragment(payloads[k][VENDOR..]).value; SliceOf(f, m) || EarlyTermination(f)
    ensures MfgAll(s, payloads).outcomes[n].message == m
  {
    hide DecodeFragment, MfgReceive, MfgAll, SliceOf, EarlyTermination;
    var o := MfgAll(s, payloads).outcomes[n];
    DeliveredNotEmpty(s, payloads, n);
    assert [] + payloads == payloads;
    forall i | 0 <= i < |o.message|
      ensures |o.message| == |m| && o.message[i] == m[i]
    {
      DeliveredWasSent(s, [], payloads, n, i);
      var k :| 0 <= k < |payloads| && Carries(payloads[k], o.vendor, |o.message|, i, o.message[i]);
      CarriedSlice(payloads[k], o.vendor, |o.message|, i, o.message[i], m);
    }
    assert |o.message| == |m| by { assert o.message[0] == m[0]; }
  }

  lemma {:induction false} DeliveredNotEmpty(s: Receiver, payloads: seq<seq<byte>>, n: nat)
    requires Sound(s.reasm) && n < |payloads| && MfgAll(s, payloads).outcomes[n].Delivered?
    ensures MfgAll(s, payloads).outcomes[n].message != []
    decreases n
  {
    hide MfgReceive;
    if n > 0 {
      DeliveredNotEmpty(MfgReceive(s, payloads[0]).receiver, payloads[1..], n - 1);
    }
  }

  lemma {:induction false} CarriedSlice(payload: seq<byte>, v: VendorCode, total: nat, i: nat, b: byte, m: seq<byte>)
    requires Carries(payload, v, total, i, b)
    requires var f := DecodeFragment(payload[VENDOR..]).value; SliceOf(f, m) || EarlyTermination(f)
    ensures total == |m| && i < |m| && b == m[i]
  {
    hide DecodeFragment;
    var f := DecodeFragment(payload[VENDOR..]).value;
    assert f.data != [];
    assert m[f.offset..f.offset + |f.data|][i - f.offset] == m[i];
  }

  // ---- Sending a message through osdp_MFG ----

  /** The payloads of a series of fragments. */
  function MfgPayloads(v: VendorCode, fs: seq<Fragment>): (ps: seq<seq<byte>>)
    requires forall i :: 0 <= i < |fs| ==> BuildFragment(fs[i], HEADER + |fs[i].data|).Success?
    ensures |ps| == |fs|
  {
    if fs == [] then []
    else [v + BuildFragment(fs[0], HEADER + |fs[0].data|).value] + MfgPayloads(v, fs[1..])
  }

  lemma {:induction false} MfgFragment(s: Receiver, v: VendorCode, f: Fragment)
    requires Sound(s.reasm) && BuildFragment(f, HEADER + |f.data|).Success? && WellFormed(f)
    requires f.offset == 0 || s.vendor == v
    requires Push(s.reasm, f).result.Success?
    ensures var p := Push(s.reasm, f);
            MfgReceive(s, v + BuildFragment(f, HEADER + |f.data|).value) ==
            if p.result.value == Complete then MfgStep(Receiver(v, Cleared(p.reasm)), Delivered(v, p.reasm.buf[..p.reasm.total]))
            else MfgStep(Receiver(v, p.reasm), Acknowledged)
  {
    hide DecodeFragment, BuildFragment, Push;
    FragmentRoundTrip(f, HEADER + |f.data|);
    var payload := v + BuildFragment(f, HEADER + |f.data|).value;
    assert payload[..VENDOR] == v && payload[VENDOR..] == BuildFragment(f, HEADER + |f.data|).value;
  }

  /** Acknowledged for every fragment but the last, and then the message. */
  predicate ArrivesWhole(outcomes: seq<MfgOutcome>, v: VendorCode, m: seq<byte>) {
    && outcomes != [] && outcomes[|outcomes| - 1] == Delivered(v, m)
    && forall k :: 0 <= k < |outcomes| - 1 ==> outcomes[k] == Acknowledged
  }

  /** One fragment of the iterator through osdp_MFG. */
  lemma {:induction false} MfgOne(s: Receiver, v: VendorCode, it: Iterator)
    requires Sound(s.reasm) && it.maxFrag > 0 && it.offset < |it.msg| < U16 && |it.msg| <= |s.reasm.buf|
    requires Holds(s.reasm, it.msg)
    requires it.offset > 0 ==> s.vendor == v && s.reasm.active && s.reasm.received == it.offset
    ensures var f := Current(it);
            var end := it.offset + |f.data|;
            && BuildFragment(f, HEADER + |f.data|).Success?
            && var step := MfgReceive(s, v + BuildFragment(f, HEADER + |f.data|).value);
            if end == |it.msg| then step.outcome == Delivered(v, it.msg)
            else
              && step.outcome == Acknowledged && Holds(step.receiver.reasm, it.msg)
              && step.receiver.vendor == v && step.receiver.reasm.active && step.receiver.reasm.received == end
              && |step.receiver.reasm.buf| == |s.reasm.buf|
  {
    hide MfgReceive, BuildFragment, Push, Holds;
    var f := Current(it);
    CurrentIsSlice(it);
    SliceBuilds(f, it.msg);
    PushKeepsPrefix(s.reasm, f, it.msg);
    NextSlice(s.reasm, it);
    MfgFragment(s, v, f);
  }

  lemma {:induction false} MfgRemaining(s: Receiver, v: VendorCode, it: Iterator)
    requires Sound(s.reasm) && it.maxFrag > 0 && it.offset < |it.msg| < U16 && |it.msg| <= |s.reasm.buf|
    requires Holds(s.reasm, it.msg)
    requires it.offset > 0 ==> s.vendor == v && s.reasm.active && s.reasm.received == it.offset
    ensures var fs := Remaining(it);
            && (forall i :: 0 <= i < |fs| ==> BuildFragment(fs[i], HEADER + |fs[i].data|).Success?)
            && ArrivesWhole(MfgAll(s, MfgPayloads(v, fs)).outcomes, v, it.msg)
    decreases |it.msg| - it.offset
  {
    hide MfgReceive, BuildFragment, Push, Holds, MfgAll, MfgPayloads, ArrivesWhole, Current;
    var f := Current(it);
    MfgOne(s, v, it);
    CurrentIsSlice(it);
    var next := it.(offset := it.offset + |f.data|);
    var fs := Remaining(it);
    assert fs == [f] + Remaining(next) && fs[1..] == Remaining(next);
    var step := MfgReceive(s, v + BuildFragment(f, HEADER + |f.data|).value);
    if next.offset < |it.msg| {
      MfgRemaining(step.receiver, v, next);
      assert forall i :: 0 < i < |fs| ==> fs[i] == fs[1..][i - 1];
      MfgFirst(s, v, fs);
      ArrivesLater(step.outcome, MfgAll(step.receiver, MfgPayloads(v, fs[1..])).outcomes, v, it.msg);
    } else {
      assert fs == [f] && fs[1..] == [];
      MfgFirst(s, v, fs);
      ArrivesNow(v, it.msg);
      MfgNone(step.receiver, v);
      assert [step.outcome] + [] == [step.outcome];
    }
  }

  lemma {:induction false} MfgFirst(s: Receiver, v: VendorCode, fs: seq<Fragment>)
    requires Sound(s.reasm) && fs != []
    requires forall i :: 0 <= i < |fs| ==> BuildFragment(fs[i], HEADER + |fs[i].data|).Success?
    ensures var step := MfgReceive(s, v + BuildFragment(fs[0], HEADER + |fs[0].data|).value);
            MfgAll(s, MfgPayloads(v, fs)).outcomes ==
            [step.outcome] + MfgAll(step.receiver, MfgPayloads(v, fs[1..])).outcomes
  {
    hide MfgReceive, BuildFragment;
    var ps := MfgPayloads(v, fs);
    assert ps[1..] == MfgPayloads(v, fs[1..]);
  }

  lemma MfgNone(s: Receiver, v: VendorCode)
    requires Sound(s.reasm)
    ensures MfgAll(s, MfgPayloads(v, [])).outcomes == []
  {}

  lemma ArrivesNow(v: VendorCode, m: seq<byte>)
    ensures ArrivesWhole([Delivered(v, m)], v, m)
  {}

  lemma {:induction false} ArrivesLater(first: MfgOutcome, rest: seq<MfgOutcome>, v: VendorCode, m: seq<byte>)
    requires first == Acknowledged && ArrivesWhole(rest, v, m)
    ensures ArrivesWhole([first] + rest, v, m)
  {}

  lemma {:induction false} SliceBuilds(f: Fragment, m: seq<byte>)
    requires SliceOf(f, m)
    ensures WellFormed(f) && BuildFragment(f, HEADER + |f.data|).Success?
  {}

  lemma {:induction false} NextSlice(r: Reassembly, it: Iterator)
    requires it.maxFrag > 0 && it.offset < |it.msg| < U16 && |it.msg| <= |r.buf|
    requires Holds(r, it.msg) && (it.offset > 0 ==> r.active && r.received == it.offset)
    ensures var f := Current(it);
            && WellFormed(f) && f.offset == it.offset
            && var p := Push(r, f);
            && p.result == Success(if it.offset + |f.data| == |it.msg| then Complete else InProgress)
            && p.reasm.active && p.reasm.received == it.offset + |f.data| && p.reasm.total == |it.msg|
            && |p.reasm.buf| == |r.buf|
  {}

  /** A message of 1 to 65535 bytes that fits, sent in fragments of any size
      through osdp_MFG, is acknowledged fragment by fragment and then handed up
      whole, under its vendor code, whatever was being received before. */
  lemma {:induction false} MfgMessageArrives(s: Receiver, v: VendorCode, m: seq<byte>, maxFrag: nat)
    requires Sound(s.reasm) && 0 < |m| < U16 && |m| <= |s.reasm.buf|
    ensures var fs := Remaining(Iterate(m, maxFrag));
            && (forall i :: 0 <= i < |fs| ==> BuildFragment(fs[i], HEADER + |fs[i].data|).Success?)
            && ArrivesWhole(MfgAll(s, MfgPayloads(v, fs)).outcomes, v, m)
  {
    hide BuildFragment, MfgReceive, Push;
    var it := Iterate(m, maxFrag);
    var idle := s.(reasm := s.reasm.(active := false));
    MfgRemaining(idle, v, it);
    var f := Current(it);
    CurrentIsSlice(it);
    SliceBuilds(f, m);
    RestartForgets(s.reasm, f);
    NextSlice(idle.reasm, it);
    MfgFragment(s, v, f);
    MfgFragment(idle, v, f);
    var fs := Remaining(it);
    assert MfgPayloads(v, fs)[0] == v + BuildFragment(f, HEADER + |f.data|).value;
  }

  /** mfg_vendor and mfg_reasm of osdp_pd_t. */
  class VendorReceiver {
    const reasm: Reassembler
    var vendor: VendorCode

    ghost function View(): Receiver
      reads this, reasm, reasm.buf
    {
      Receiver(vendor, reasm.View())
    }

    /** osdp_pd_set_mfg_receiver. */
    constructor (cap: nat)
      ensures Sound(View().reasm) && !reasm.active && fresh(reasm) && fresh(reasm.buf) && reasm.buf.Length == cap
    {
      reasm := new Reassembler(cap);
      vendor := [0, 0, 0];
    }

    /** handle_mfg_multipart. */
    method Receive(payload: seq<byte>) returns (o: MfgOutcome)
      requires Sound(View().reasm)
      modifies this, reasm, reasm.buf
      ensures Sound(View().reasm)
      ensures MfgStep(View(), o) == MfgReceive(old(View()), payload)
    {
      hide DecodeFragment, Push;
      if |payload| < VENDOR {
        return Refused(NAK_CMD_LENGTH);
      }
      var r := DecodeFragment(payload[VENDOR..]);
      if r.Failure? {
        reasm.Clear();
        return Refused(NAK_RECORD_INVALID);
      }
      var f := r.value;
      DecodedWellFormed(payload[VENDOR..]);
      if f.offset == 0 {
        vendor := payload[..VENDOR];
      } else if vendor != payload[..VENDOR] {
        reasm.Clear();
        return Refused(NAK_RECORD_INVALID);
      }
      PushKeepsSound(reasm.View(), f);
      var state := reasm.PushFragment(f);
      if state.Failure? {
        reasm.Clear();
        return Refused(NAK_RECORD_INVALID);
      }
      if state.value != Complete {
        return Acknowledged;
      }
      o := Delivered(vendor, reasm.buf[..reasm.total]);
      reasm.Clear();
    }
  }
}
