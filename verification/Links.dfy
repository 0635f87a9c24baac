/** A panel slot and a device on a half-duplex line that may lose any frame:
    the rolling MAC chain stays in step, every command is executed at most once
    and queued events arrive in order. */
module Links {
  import opened Bytes
  import opened Codes
  import opened Frames
  import opened Ciphers
  import opened Wrapping
  import opened EventQueues
  import opened Devices
  import opened Controllers
  import opened Exchanges
  import Macs
  import Payloads
  import Policies

  /** At most one frame is on the line. */
  datatype Line = Quiet | ToDevice(wire: seq<byte>) | ToPanel(wire: seq<byte>)

  datatype Order = Order(code: byte, payload: seq<byte>)

  /** `outstanding` is the command the application has issued and not yet seen
      answered; `issued` lists all of them, without those given up. */
  datatype System = System(
    slot: Slot,
    device: Device,
    line: Line,
    outstanding: Option<Order>,
    issued: seq<Order>)

  datatype Action =
    | Issue(order: Order)
    | Repeat
    | CommandIn(app: App)
    | ReplyIn
    | Lose
    | Expire
    | GiveUp
    | Queue(event: Event)

  // ---- Steps ----

  function Transmit(c: Cipher, s: System, o: Order): System {
    match SendCommand(c, s.slot, o.code, o.payload)
    case Failure(_) => s
    case Success(sent) =>
      s.(slot := sent.slot, line := ToDevice(sent.wire), outstanding := Some(o))
  }

  function Act(c: Cipher, cfg: Config, s: System, a: Action): System {
    match a
    case Issue(o) =>
      if s.outstanding.Some? || SendCommand(c, s.slot, o.code, o.payload).Failure? then s
      else Transmit(c, s, o).(issued := s.issued + [o])
    case Repeat =>
      if s.outstanding.None? then s else Transmit(c, s, s.outstanding.value)
    case CommandIn(app) =>
      if !s.line.ToDevice? then s
      else
        var step := Devices.Receive(c, cfg, s.device, Raw(s.line.wire), app);
        s.(device := step.device, line := if step.reply == [] then Quiet else ToPanel(step.reply))
    case ReplyIn =>
      if !s.line.ToPanel? then s
      else
        var r := Controllers.Receive(c, s.slot, Raw(s.line.wire));
        s.(slot := r.slot, line := if r.wire == [] then Quiet else ToDevice(r.wire),
           outstanding := if |r.slot.answers| > |s.slot.answers| then None else s.outstanding)
    case Lose => s.(line := Quiet)
    case Expire => if s.line.Quiet? then s.(slot := ReplyTimeout(s.slot)) else s
    case GiveUp => if s.outstanding.Some? && !s.slot.waiting then GivenUp(s) else s
    case Queue(e) => s.(device := Offer(cfg, s.device, e))
  }

  /** The application stops repeating its command. */
  function GivenUp(s: System): System
    requires s.outstanding.Some?
  {
    s.(outstanding := None, issued := if s.issued == [] then [] else s.issued[..|s.issued| - 1])
  }

  function Run(c: Cipher, cfg: Config, s: System, actions: seq<Action>): System
    decreases |actions|
  {
    if actions == [] then s
    else Act(c, cfg, Run(c, cfg, s, actions[..|actions| - 1]), actions[|actions| - 1])
  }

  // ---- The runs considered ----

  /** A command fits the device's retransmit cache. */
  predicate FitsCache(c: Cipher, cfg: Config, a: Slot, o: Order) {
    match CommandWire(c, a, o.code, o.payload)
    case Failure(_) => true
    case Success(w) => |Raw(w.wire)| <= cfg.commandCap
  }

  /** Room for osdp_COM in either mode: marking byte, header, security block,
      code, one block of payload, MAC and CRC. */
  const COM_ROOM := 31

  predicate Stages(o: Order) {
    StagesComset(o.code, o.payload)
  }

  /** A device in secure mode is sent nothing in clear text that it refuses
      there. */
  predicate Accepted(a: Slot, d: Device, o: Order) {
    Secured(a) || d.scbk.None? || AllowedInClear(o.code)
  }

  /** Commands fit the cache and are not refused for being in clear text; a
      COMSET that will be applied has room for its reply, which is lost only in
      clear text and if the device no longer hears the slot; a command is given
      up only if the device has neither executed nor remembered it; the application does not answer
      BUSY; queued events can be handed back. */
  predicate Permitted(c: Cipher, cfg: Config, s: System, a: Action) {
    match a
    case Issue(o) =>
      && FitsCache(c, cfg, s.slot, o) && Accepted(s.slot, s.device, o)
      && (Stages(o) ==> cfg.txCap >= COM_ROOM)
    case CommandIn(app) => !app.verdict.Busy?
    case Lose => s.line.ToPanel? && s.outstanding.Some? && Stages(s.outstanding.value) ==> !Secured(s.slot) && !Hears(s)
    case GiveUp => CacheIsOld(s) && |s.device.log| == |s.slot.answers|
    case Queue(e) => |e.payload| <= SCRATCH_LEN
    case _ => true
  }

  predicate AllPermitted(c: Cipher, cfg: Config, s: System, actions: seq<Action>)
    decreases |actions|
  {
    actions == [] ||
    (var n := |actions| - 1;
     AllPermitted(c, cfg, s, actions[..n]) && Permitted(c, cfg, Run(c, cfg, s, actions[..n]), actions[n]))
  }

  // ---- The invariant ----

  /** Both sides hold a session, or neither does. */
  predicate SameMode(a: Slot, d: Device) {
    if Secured(a) then a.session.established && d.session.established && a.session.keys == d.session.keys
    else a.phase == Phase.Idle && !d.session.established
  }

  predicate Settled(s: System) {
    && s.slot.address < 128 && s.device.address < 128
    && 1 <= s.slot.nextSeq <= 3
    && (s.slot.waiting ==> s.slot.pendingSeq == s.slot.nextSeq)
    && s.device.newAddress.None?
    && SameMode(s.slot, s.device)
    && (Secured(s.slot) ==> ScCanAnswer(s.device))
  }

  predicate ScCanAnswer(d: Device) {
    d.scbk.Some? || d.scbkD.Some?
  }

  /** What the device last sent is what the slot last received. */
  predicate InStep(s: System) {
    Secured(s.slot) ==> s.slot.session.lastInbound == s.device.session.lastOutbound
  }

  /** The device cannot mistake the next command for the remembered one. */
  predicate CacheIsOld(s: System) {
    s.device.haveLast && s.device.lastCmd != [] ==>
      |s.device.lastCmd| > 4 && s.device.lastCmd[4] % 4 != s.slot.nextSeq
  }

  /** The wire bytes of the outstanding command. */
  function OutstandingWire(c: Cipher, s: System): Result<Wrapped>
    requires s.outstanding.Some?
  {
    CommandWire(c, s.slot, s.outstanding.value.code, s.outstanding.value.payload)
  }

  /** The device listens to the slot's address: its own, until it is given
      another one, or the broadcast address. */
  predicate Hears(s: System) {
    s.slot.address == s.device.address || s.slot.address == BROADCAST
  }

  /** The outstanding command, if any, has not reached the device. */
  predicate Unseen(c: Cipher, s: System) {
    && InStep(s) && CacheIsOld(s)
    && (s.outstanding.Some? ==> Accepted(s.slot, s.device, s.outstanding.value))
    && |s.device.log| == |s.slot.answers|
    && !s.line.ToPanel?
  }

  /** The newest executed command and its reply. */
  predicate NewestReply(c: Cipher, s: System, wire: seq<byte>) {
    && |s.device.log| == |s.slot.answers| + 1
    && var e := s.device.log[|s.device.log| - 1];
    && e.result.Reply?
    && Answers(c, s.slot, wire, e.result.code, e.result.payload, s.device.session.lastOutbound)
  }

  /** The device remembers the outstanding command, and holds either an answer
      that the slot will accept or, having none, an unchanged chain. */
  predicate Seen(c: Cipher, s: System) {
    && s.outstanding.Some? && Hears(s)
    && OutstandingWire(c, s).Success?
    && var w := OutstandingWire(c, s).value;
    && s.device.haveLast && s.device.lastCmd == Raw(w.wire)
    && (s.line.ToPanel? ==> s.line.wire == s.device.lastReply && s.slot.waiting)
    && |s.slot.answers| <= |s.device.log| <= |s.slot.answers| + 1
    && (if s.device.lastReply == [] then InStep(s) && !s.line.ToPanel?
        else NewestReply(c, s, s.device.lastReply))
  }

  /** A COMSET has been applied, which dropped the cache, and its reply is on the
      line. */
  predicate Departing(c: Cipher, s: System) {
    && s.outstanding.Some? && Stages(s.outstanding.value) && !s.device.haveLast
    && s.line.ToPanel? && s.slot.waiting && NewestReply(c, s, s.line.wire)
  }

  /** A COMSET in clear text has given the device another address, and its reply
      was lost. */
  predicate Departed(s: System) {
    && s.outstanding.Some? && Stages(s.outstanding.value) && !s.device.haveLast
    && !Secured(s.slot) && !Hears(s) && !s.line.ToPanel?
    && |s.device.log| == |s.slot.answers| + 1
  }

  predicate LineMatches(c: Cipher, cfg: Config, s: System) {
    && (s.slot.waiting ==> s.outstanding.Some?)
    && (!s.slot.waiting ==> s.line.Quiet?)
    && (s.outstanding.Some? ==>
          && OutstandingWire(c, s).Success?
          && |Raw(OutstandingWire(c, s).value.wire)| <= cfg.commandCap
          && (Stages(s.outstanding.value) ==> cfg.txCap >= COM_ROOM)
          && (Secured(s.slot) ==> s.slot.session.lastOutbound == OutstandingWire(c, s).value.mac))
    && (s.line.ToDevice? ==>
          s.outstanding.Some? && s.line.wire == OutstandingWire(c, s).value.wire)
  }

  /** The records agree: commands issued, commands executed, answers delivered. */
  predicate RecordsAgree(s: System) {
    && |s.issued| == |s.slot.answers| + (if s.outstanding.Some? then 1 else 0)
    && (s.outstanding.Some? ==> s.issued[|s.issued| - 1] == s.outstanding.value)
    && |s.slot.answers| <= |s.device.log| <= |s.issued|
    && (forall i :: 0 <= i < |s.device.log| ==>
          && s.device.log[i].code == s.issued[i].code
          && s.device.log[i].payload == s.issued[i].payload)
    && (forall i :: 0 <= i < |s.slot.answers| ==>
          s.device.log[i].result == Reply(s.slot.answers[i].code, s.slot.answers[i].payload)
          && s.slot.answers[i].cmdCode == s.issued[i].code)
    && (s.slot.waiting ==> s.outstanding.Some? && s.slot.pendingCode == s.outstanding.value.code)
  }

  /** The event that an entry of the record reports, if any. */
  function EventOf(result: Verdict, fromQueue: bool): seq<Event> {
    if fromQueue && result.Reply? then [Event(result.code, result.payload)] else []
  }

  /** The events among the executed commands' replies. */
  function Reported(log: seq<Entry>): seq<Event> {
    if log == [] then []
    else
      var e := log[|log| - 1];
      Reported(log[..|log| - 1]) + EventOf(e.result, e.fromQueue)
  }

  /** No accepted event is lost, duplicated or reordered inside the device. */
  predicate EventsConserved(d: Device) {
    && d.accepted == Reported(d.log) + d.queue
    && (forall i :: 0 <= i < |d.queue| ==> |d.queue[i].payload| <= SCRATCH_LEN)
  }

  predicate Invariant(c: Cipher, cfg: Config, s: System) {
    && Settled(s)
    && LineMatches(c, cfg, s)
    && RecordsAgree(s)
    && EventsConserved(s.device)
    && (Unseen(c, s) || Seen(c, s) || Departing(c, s) || Departed(s))
  }

  /** Caches as bound by default: every reply that fits the transmit buffer fits
      the reply cache. */
  predicate WellBound(cfg: Config) {
    cfg.replyCap >= cfg.txCap && cfg.cryptoReady
  }

  // ---- Preservation: sending ----

  lemma {:induction false} SendingKeepsWire(c: Cipher, a: Slot, code: byte, payload: seq<byte>)
    requires SendCommand(c, a, code, payload).Success? && a.nextSeq < 4
    ensures var b := SendCommand(c, a, code, payload).value.slot;
            var w := CommandWire(c, a, code, payload);
            && !a.waiting
            && w.Success? && SendCommand(c, a, code, payload).value.wire == w.value.wire
            && CommandWire(c, b, code, payload) == w
            && b == MarkSent(a.(session := AfterWrap(a.session, w.value)), a.nextSeq, code)
            && (Secured(a) ==> b.session.lastOutbound == w.value.mac)
            && (!Secured(a) ==> b.session == a.session)
  {
    hide Wrap, Build;
    WrapRepeats(c, a.session, CommandFrame(a, code, payload), Controllers.BUF_LEN,
                SendCommand(c, a, code, payload).value.slot.session.lastOutbound);
  }

  lemma {:induction false} AnswersAfterSending(c: Cipher, a: Slot, b: Slot, wire: seq<byte>, code: byte, payload: seq<byte>, mac: Block)
    requires Answers(c, a, wire, code, payload, mac)
    requires b.address == a.address && b.nextSeq == a.nextSeq && b.phase == a.phase && b.session == a.session
    ensures Answers(c, b, wire, code, payload, mac)
  {
    hide Decode, Unwrap;
  }

  lemma {:induction false} IssueKeeps(c: Cipher, cfg: Config, s: System, o: Order)
    requires Invariant(c, cfg, s) && Permitted(c, cfg, s, Issue(o))
    ensures Invariant(c, cfg, Act(c, cfg, s, Issue(o)))
  {
    hide SendCommand, CommandWire, Reported, Answers;
    if s.outstanding.None? && SendCommand(c, s.slot, o.code, o.payload).Success? {
      SendingKeepsWire(c, s.slot, o.code, o.payload);
    }
  }

  lemma {:induction false} RepeatKeeps(c: Cipher, cfg: Config, s: System)
    requires Invariant(c, cfg, s)
    ensures Invariant(c, cfg, Act(c, cfg, s, Repeat))
  {
    hide SendCommand, CommandWire, Reported, Answers;
    if s.outstanding.Some? {
      var o := s.outstanding.value;
      if SendCommand(c, s.slot, o.code, o.payload).Success? {
        SendingKeepsWire(c, s.slot, o.code, o.payload);
        var t := Act(c, cfg, s, Repeat);
        if Seen(c, s) && s.device.lastReply != [] {
          var e := s.device.log[|s.device.log| - 1].result;
          AnswersAfterSending(c, s.slot, t.slot, s.device.lastReply, e.code, e.payload, s.device.session.lastOutbound);
        }
      }
    }
  }

  // ---- Preservation: the device ----

  lemma {:induction false} ReportedSnoc(log: seq<Entry>, e: Entry)
    ensures Reported(log + [e]) == Reported(log) + EventOf(e.result, e.fromQueue)
  {
    assert (log + [e])[..|log|] == log;
  }

  lemma {:induction false} DecideFacts(d: Device, code: byte, payload: seq<byte>, app: App)
    requires d.newAddress.None? && d.address < 128 && !app.verdict.Busy?
    requires forall i :: 0 <= i < |d.queue| ==> |d.queue[i].payload| <= SCRATCH_LEN
    ensures var x := Decide(d, code, payload, app);
            && !x.result.Busy?
            && x.device == d.(scbk := x.device.scbk, queue := x.device.queue, newAddress := x.device.newAddress)
            && d.queue == EventOf(x.result, x.fromQueue) + x.device.queue
            && (forall i :: 0 <= i < |x.device.queue| ==> |x.device.queue[i].payload| <= SCRATCH_LEN)
            && (d.scbk.Some? ==> x.device.scbk.Some?)
            && (x.device.newAddress.Some? <==> StagesComset(code, payload))
            && (x.device.newAddress.Some? ==>
                  x.device.newAddress.value < 128 && x.result.Reply? && |x.result.payload| == 5)
  {
    hide KeysetKey;
    if code == CMD_POLL && d.queue != [] {
      assert d.queue == [d.queue[0]] + d.queue[1..];
    }
  }

  /** A dispatched command leaves the session and the caches alone, is recorded
      once, and moves an event from the queue to the record or none. */
  lemma {:induction false} DispatchFacts(d: Device, channel: Channel, code: byte, payload: seq<byte>, app: App)
    requires d.newAddress.None? && d.address < 128 && !app.verdict.Busy? && EventsConserved(d)
    ensures var x := Dispatch(d, channel, code, payload, app);
            && !x.result.Busy? && EventsConserved(x.device)
            && x.device == d.(scbk := x.device.scbk, queue := x.device.queue, newAddress := x.device.newAddress,
                              log := d.log + [Entry(channel, code, payload, x.result, x.fromQueue)])
            && (d.scbk.Some? ==> x.device.scbk.Some?)
            && (x.device.newAddress.Some? <==> StagesComset(code, payload))
            && (x.device.newAddress.Some? ==>
                  x.device.newAddress.value < 128 && x.result.Reply? && |x.result.payload| == 5)
  {
    hide Decide, Reported, EventOf;
    DecideFacts(d, code, payload, app);
    var x := Decide(d, code, payload, app);
    ReportedSnoc(d.log, Entry(channel, code, payload, x.result, x.fromQueue));
    var e := EventOf(x.result, x.fromQueue);
    assert Reported(d.log) + (e + x.device.queue) == Reported(d.log) + e + x.device.queue;
  }

  /** The device after a new command: remembered with its reply; executed once,
      with a reply the slot will accept or none, or refused for lack of room. */
  predicate Executed(c: Cipher, a: Slot, d: Device, o: Order, raw: seq<byte>, step: Step) {
    var e := step.device;
    && e.address < 128 && e.newAddress.None? && e.accepted == d.accepted && EventsConserved(e)
    && (if Stages(o) && e.log != d.log then !e.haveLast && step.reply != []
        else e.address == d.address && e.haveLast && e.lastCmd == raw && e.lastReply == step.reply)
    && SameMode(a, e) && (Secured(a) ==> ScCanAnswer(e))
    && (step.reply == [] ==> e.session.lastOutbound == d.session.lastOutbound)
    && (if e.log == d.log then step.reply == []
        else
          && |e.log| == |d.log| + 1 && e.log[..|d.log|] == d.log
          && var x := e.log[|d.log|];
          && x.code == o.code && x.payload == o.payload
          && (step.reply != [] ==>
                x.result.Reply? &&
                Answers(c, a, step.reply, x.result.code, x.result.payload, e.session.lastOutbound)))
  }

  lemma {:induction false} BuiltFits(f: Frame, cap: nat)
    ensures Build(f, cap).Success? ==> |Build(f, cap).value| <= cap && Build(f, cap).value != []
  {
    hide FrameBytes, Prefix;
    if Build(f, cap).Success? {
      BuildSize(f, cap);
    }
  }

  lemma {:induction false} WrappedFits(c: Cipher, s: Session, f: Frame, cap: nat)
    ensures Wrap(c, s, f, cap).Success? ==>
              |Wrap(c, s, f, cap).value.wire| <= cap && Wrap(c, s, f, cap).value.wire != []
  {
    hide Build, Wrap, Final;
    if Wrap(c, s, f, cap).Success? {
      WrapIsBuild(c, s, f, cap);
      BuiltFits(Final(c, s, f, cap), cap);
    }
  }

  lemma {:induction false} HandlePlainExecutes(c: Cipher, cfg: Config, a: Slot, d: Device, o: Order, cmd: Frame, raw: seq<byte>, app: App)
    requires WellBound(cfg) && |raw| <= cfg.commandCap && !Secured(a) && SameMode(a, d)
    requires d.newAddress.None? && d.address < 128 && EventsConserved(d) && !app.verdict.Busy?
    requires Accepted(a, d, o) && (Stages(o) ==> cfg.txCap >= COM_ROOM) && a.address < 128 && a.nextSeq < 4
    requires !cmd.hasScb && cmd.code == o.code && cmd.payload == o.payload
    requires cmd.address == a.address && cmd.sequence == a.nextSeq
    ensures var h := HandlePlain(cfg, d, cmd, app);
            h.cacheable &&
            Executed(c, a, d, o, raw, Step(ApplyComset(Remember(cfg, h.device, raw, h.reply)), h.reply))
  {
    hide Build, Answers, Reported, Decide, EventsConserved;
    DispatchFacts(d, Plain, cmd.code, cmd.payload, app);
    var x := Dispatch(d, Plain, cmd.code, cmd.payload, app);
    ConservedRemembered(cfg, x.device, raw, HandlePlain(cfg, d, cmd, app).reply);
    match x.result
    case Drop =>
    case Reply(code, payload) =>
      var f := PlainReply(cmd, code, payload);
      if Stages(o) { ComFits(c, d.session, cmd, code, payload, cfg.txCap); }
      BuiltFits(f, cfg.txCap);
      if Build(f, cfg.txCap).Success? {
        PlainReplyAnswers(c, cfg, a, cmd, code, payload, d.session.lastOutbound);
      }
  }

  /** osdp_COM fits its room, in clear text and wrapped. */
  lemma {:induction false} ComFits(c: Cipher, s: Session, cmd: Frame, code: byte, payload: seq<byte>, cap: nat)
    requires cmd.address < 128 && cmd.sequence < 4 && |payload| == 5 && cap >= COM_ROOM
    ensures Build(PlainReply(cmd, code, payload), cap).Success?
    ensures s.established ==> Wrap(c, s, SecureReply(cmd, code, payload), cap).Success?
  {
    hide Build, Wrap;
    BuildFitsExactly(PlainReply(cmd, code, payload), cap);
    if s.established {
      WrapFitsExactly(c, s, SecureReply(cmd, code, payload), cap);
    }
  }

  lemma {:induction false} ConservedRemembered(cfg: Config, d: Device, raw: seq<byte>, reply: seq<byte>)
    ensures EventsConserved(ApplyComset(Remember(cfg, d, raw, reply))) <==> EventsConserved(d)
  {
    hide Reported;
  }

  lemma {:induction false} ConservedSession(d: Device, session: Session)
    ensures EventsConserved(d.(session := session)) <==> EventsConserved(d)
  {
    hide Reported;
  }

  lemma {:induction false} HandleSecureExecutes(c: Cipher, cfg: Config, a: Slot, d: Device, o: Order, cmd: Frame, raw: seq<byte>, app: App, mac: Block)
    requires Inverts(c) && WellBound(cfg) && |raw| <= cfg.commandCap && Secured(a) && SameMode(a, d) && ScCanAnswer(d)
    requires d.newAddress.None? && d.address < 128 && EventsConserved(d) && !app.verdict.Busy?
    requires (Stages(o) ==> cfg.txCap >= COM_ROOM) && a.address < 128 && a.nextSeq < 4 && cmd.code == o.code
    requires cmd.address == a.address && cmd.sequence == a.nextSeq
    requires a.session.lastOutbound == mac
    requires Unwrap(c, d.session, cmd, raw, cfg.plainCap) ==
             if Cramped(cfg.plainCap, o.payload) then Failure(BufferTooSmall) else Success(Unwrapped(o.payload, mac))
    ensures var h := HandleOperational(c, cfg, d, cmd, raw, app);
            h.cacheable &&
            Executed(c, a, d, o, raw, Step(ApplyComset(Remember(cfg, h.device, raw, h.reply)), h.reply))
  {
    hide Build, Wrap, Unwrap, Answers, Reported, Decide, EventsConserved;
    var h := HandleOperational(c, cfg, d, cmd, raw, app);
    ConservedRemembered(cfg, h.device, raw, h.reply);
    match Unwrap(c, d.session, cmd, raw, cfg.plainCap)
    case Failure(_) =>
    case Success(u) =>
      var d1 := d.(session := AfterUnwrap(d.session, u));
      ConservedSession(d, d1.session);
      DispatchFacts(d1, Secure, cmd.code, u.plain, app);
      var x := Dispatch(d1, Secure, cmd.code, u.plain, app);
      match x.result
      case Drop =>
      case Reply(code, payload) =>
        var f := SecureReply(cmd, code, payload);
        if Stages(o) { ComFits(c, x.device.session, cmd, code, payload, cfg.txCap); }
        WrappedFits(c, x.device.session, f, cfg.txCap);
        if Wrap(c, x.device.session, f, cfg.txCap).Success? {
          SecureReplyAnswers(c, cfg, a, x.device.session, cmd, code, payload);
          ConservedSession(x.device, AfterWrap(x.device.session, Wrap(c, x.device.session, f, cfg.txCap).value));
        }
  }

  /** A command that the device has not seen is executed. */
  lemma {:induction false} NewCommandExecutes(c: Cipher, cfg: Config, s: System, app: App)
    requires Inverts(c) && WellBound(cfg) && Invariant(c, cfg, s) && Unseen(c, s)
    requires s.line.ToDevice? && !app.verdict.Busy? && Hears(s)
    ensures var raw := Raw(s.line.wire);
            Executed(c, s.slot, s.device, s.outstanding.value, raw, Devices.Receive(c, cfg, s.device, raw, app))
  {
    hide Decode, CommandWire, Answers, Reported, EventsConserved, HandlePlain, HandleOperational, Executed;
    var o := s.outstanding.value;
    var w := OutstandingWire(c, s).value;
    var raw := Raw(w.wire);
    CommandArrives(c, s.slot, o.code, o.payload);
    var cmd := Decode(raw).value;
    assert !IsRetransmit(s.device, cmd, raw);
    if Secured(s.slot) {
      CommandUnwraps(c, s.slot, o.code, o.payload, s.device.session, cfg.plainCap);
      HandleSecureExecutes(c, cfg, s.slot, s.device, o, cmd, raw, app, w.mac);
    } else {
      HandlePlainExecutes(c, cfg, s.slot, s.device, o, cmd, raw, app);
    }
  }

  /** A command that the device remembers is answered from the cache. */
  lemma {:induction false} SeenCommandReplays(c: Cipher, cfg: Config, s: System, app: App)
    requires Invariant(c, cfg, s) && Seen(c, s) && s.line.ToDevice?
    ensures Devices.Receive(c, cfg, s.device, Raw(s.line.wire), app) == Step(s.device, s.device.lastReply)
  {
    hide Decode, CommandWire, Answers, Reported, Handle;
    CommandArrives(c, s.slot, s.outstanding.value.code, s.outstanding.value.payload);
  }

  /** A command for another address is not answered. */
  lemma {:induction false} NotHeard(c: Cipher, cfg: Config, s: System, app: App)
    requires Invariant(c, cfg, s) && s.line.ToDevice? && !Hears(s)
    ensures Devices.Receive(c, cfg, s.device, Raw(s.line.wire), app) == Step(s.device, [])
  {
    hide Decode, CommandWire, Answers, Reported, Process;
    CommandArrives(c, s.slot, s.outstanding.value.code, s.outstanding.value.payload);
  }

  lemma {:induction false} FreshKeeps(c: Cipher, cfg: Config, s: System, app: App)
    requires Inverts(c) && WellBound(cfg) && Invariant(c, cfg, s) && Unseen(c, s)
    requires s.line.ToDevice? && !app.verdict.Busy? && Hears(s)
    ensures Invariant(c, cfg, Act(c, cfg, s, CommandIn(app)))
  {
    hide Decode, CommandWire, Answers, Reported, EventsConserved, Devices.Receive;
    NewCommandExecutes(c, cfg, s, app);
  }

  lemma {:induction false} UnansweredKeeps(c: Cipher, cfg: Config, s: System)
    requires Invariant(c, cfg, s) && s.line.ToDevice?
    ensures Invariant(c, cfg, s.(line := Quiet))
  {
    hide CommandWire, Answers, Reported, EventsConserved;
  }

  lemma {:induction false} ReplayKeeps(c: Cipher, cfg: Config, s: System)
    requires Invariant(c, cfg, s) && Seen(c, s) && s.line.ToDevice? && s.device.lastReply != []
    ensures Invariant(c, cfg, s.(line := ToPanel(s.device.lastReply)))
  {
    hide CommandWire, Answers, Reported, EventsConserved;
  }

  lemma {:induction false} CommandInKeeps(c: Cipher, cfg: Config, s: System, app: App)
    requires Inverts(c) && WellBound(cfg)
    requires Invariant(c, cfg, s) && Permitted(c, cfg, s, CommandIn(app))
    ensures Invariant(c, cfg, Act(c, cfg, s, CommandIn(app)))
  {
    hide CommandWire, Settled, LineMatches, RecordsAgree, EventsConserved, Devices.Receive, CacheIsOld, InStep, NewestReply;
    if s.line.ToDevice? {
      if !Hears(s) {
        NotHeard(c, cfg, s, app);
        UnansweredKeeps(c, cfg, s);
      } else if Seen(c, s) {
        SeenCommandReplays(c, cfg, s, app);
        if s.device.lastReply == [] {
          UnansweredKeeps(c, cfg, s);
        } else {
          ReplayKeeps(c, cfg, s);
        }
      } else {
        FreshKeeps(c, cfg, s, app);
      }
    }
  }

  // ---- Preservation: the panel, the line and the queue ----

  /** The system after an accepted answer. */
  function Answered(s: System): System
    requires s.device.log != []
  {
    var e := s.device.log[|s.device.log| - 1].result;
    var b := if Secured(s.slot)
             then s.slot.(session := s.slot.session.(lastInbound := s.device.session.lastOutbound))
             else s.slot;
    if e.Reply? then s.(slot := DeliverReply(b, e.code, e.payload), line := Quiet, outstanding := None) else s
  }

  lemma {:induction false} ReplyInIsAnswered(c: Cipher, cfg: Config, s: System)
    requires Invariant(c, cfg, s) && s.line.ToPanel?
    ensures s.device.log != [] && Act(c, cfg, s, ReplyIn) == Answered(s)
    ensures s.device.log[|s.device.log| - 1].result.Reply?
  {
    hide CommandWire, Answers, Reported, EventsConserved, Controllers.Receive, RecordsAgree;
    var e := s.device.log[|s.device.log| - 1].result;
    AnswerIsDelivered(c, s.slot, s.line.wire, e.code, e.payload, s.device.session.lastOutbound);
  }

  lemma {:induction false} AnsweredRecords(s: System)
    requires RecordsAgree(s) && s.slot.waiting && |s.device.log| == |s.slot.answers| + 1
    requires s.device.log[|s.device.log| - 1].result.Reply?
    ensures RecordsAgree(Answered(s))
  {}

  lemma {:induction false} ReplyInKeeps(c: Cipher, cfg: Config, s: System)
    requires Invariant(c, cfg, s)
    ensures Invariant(c, cfg, Act(c, cfg, s, ReplyIn))
  {
    hide CommandWire, Answers, Reported, EventsConserved, Act, RecordsAgree;
    if s.line.ToPanel? {
      ReplyInIsAnswered(c, cfg, s);
      AnsweredRecords(s);
      var o := s.outstanding.value;
      SeenCommandIsOld(c, s.slot, o.code, o.payload);
    } else {
      NoReplyNoChange(c, cfg, s);
    }
  }

  lemma {:induction false} NoReplyNoChange(c: Cipher, cfg: Config, s: System)
    requires !s.line.ToPanel?
    ensures Act(c, cfg, s, ReplyIn) == s
  {}

  /** After the answer, the remembered command carries the previous number. */
  lemma {:induction false} SeenCommandIsOld(c: Cipher, a: Slot, code: byte, payload: seq<byte>)
    requires CommandWire(c, a, code, payload).Success? && 1 <= a.nextSeq <= 3
    ensures var raw := Raw(CommandWire(c, a, code, payload).value.wire);
            |raw| > 4 && raw[4] % 4 != Advance(a.nextSeq)
  {
    hide Decode, CommandWire;
    CommandArrives(c, a, code, payload);
  }

  lemma {:induction false} ExpireKeeps(c: Cipher, cfg: Config, s: System)
    requires Invariant(c, cfg, s)
    ensures Invariant(c, cfg, Act(c, cfg, s, Expire))
  {
    hide CommandWire, Answers, Reported, EventsConserved;
    if s.line.Quiet? && s.slot.waiting {
      var o := s.outstanding.value;
      var b := ReplyTimeout(s.slot);
      WireUnchanged(c, s.slot, b, o.code, o.payload);
      if Seen(c, s) && s.device.lastReply != [] {
        var e := s.device.log[|s.device.log| - 1].result;
        AnswersAfterSending(c, s.slot, b, s.device.lastReply, e.code, e.payload, s.device.session.lastOutbound);
      }
    }
  }

  lemma {:induction false} WireUnchanged(c: Cipher, a: Slot, b: Slot, code: byte, payload: seq<byte>)
    requires b == a.(waiting := b.waiting, ledger := b.ledger)
    ensures CommandWire(c, b, code, payload) == CommandWire(c, a, code, payload)
  {
    hide Wrap, Build;
  }

  lemma {:induction false} LoseKeeps(c: Cipher, cfg: Config, s: System)
    requires Invariant(c, cfg, s) && Permitted(c, cfg, s, Lose)
    ensures Invariant(c, cfg, Act(c, cfg, s, Lose))
  {
    hide CommandWire, Answers, Reported, EventsConserved;
  }

  lemma {:induction false} GiveUpKeeps(c: Cipher, cfg: Config, s: System)
    requires Invariant(c, cfg, s) && Permitted(c, cfg, s, GiveUp)
    ensures Invariant(c, cfg, Act(c, cfg, s, GiveUp))
  {
    hide CommandWire, Decode, Answers, Reported, EventsConserved;
    if s.outstanding.Some? {
      CommandArrives(c, s.slot, s.outstanding.value.code, s.outstanding.value.payload);
    }
  }

  lemma {:induction false} QueueKeeps(c: Cipher, cfg: Config, s: System, e: Event)
    requires Invariant(c, cfg, s) && |e.payload| <= SCRATCH_LEN
    ensures Invariant(c, cfg, Act(c, cfg, s, Queue(e)))
  {
    hide CommandWire, Answers, Reported, EventsConserved, Packed;
    OfferConserves(cfg, s.device, e);
  }

  lemma {:induction false} OfferConserves(cfg: Config, d: Device, e: Event)
    requires EventsConserved(d) && |e.payload| <= SCRATCH_LEN
    ensures EventsConserved(Offer(cfg, d, e))
    ensures Offer(cfg, d, e) == d.(queue := Offer(cfg, d, e).queue, accepted := Offer(cfg, d, e).accepted)
  {
    hide Reported, Packed;
  }

  lemma {:induction false} ActKeeps(c: Cipher, cfg: Config, s: System, a: Action)
    requires Inverts(c) && WellBound(cfg)
    requires Invariant(c, cfg, s) && Permitted(c, cfg, s, a)
    ensures Invariant(c, cfg, Act(c, cfg, s, a))
  {
    hide Invariant, Act;
    match a
    case Issue(o) => IssueKeeps(c, cfg, s, o);
    case Repeat => RepeatKeeps(c, cfg, s);
    case CommandIn(app) => CommandInKeeps(c, cfg, s, app);
    case ReplyIn => ReplyInKeeps(c, cfg, s);
    case Lose => LoseKeeps(c, cfg, s);
    case Expire => ExpireKeeps(c, cfg, s);
    case GiveUp => GiveUpKeeps(c, cfg, s);
    case Queue(e) => QueueKeeps(c, cfg, s, e);
  }

  /** The invariant holds after every permitted run. */
  lemma {:induction false} RunKeeps(c: Cipher, cfg: Config, s: System, actions: seq<Action>)
    requires Inverts(c) && WellBound(cfg)
    requires Invariant(c, cfg, s) && AllPermitted(c, cfg, s, actions)
    ensures Invariant(c, cfg, Run(c, cfg, s, actions))
    decreases |actions|
  {
    hide Invariant, Act, Permitted;
    if actions != [] {
      var n := |actions| - 1;
      RunKeeps(c, cfg, s, actions[..n]);
      ActKeeps(c, cfg, Run(c, cfg, s, actions[..n]), actions[n]);
    }
  }

  // ---- Where runs start ----

  /** A slot and a device between exchanges, past sequence number zero, with the
      remembered command older than the next one; records start empty. */
  predicate Start(s: System) {
    && Settled(s) && !s.slot.waiting && s.line.Quiet? && s.outstanding.None?
    && InStep(s) && CacheIsOld(s)
    && s.issued == [] && s.slot.answers == [] && s.device.log == []
    && s.device.accepted == s.device.queue
    && (forall i :: 0 <= i < |s.device.queue| ==> |s.device.queue[i].payload| <= SCRATCH_LEN)
  }

  lemma {:induction false} StartIsInvariant(c: Cipher, cfg: Config, s: System)
    requires Start(s)
    ensures Invariant(c, cfg, s)
  {}

  // ---- Theorems over runs ----

  /** Chain lockstep under loss. After every permitted run of an established
      pair, the keys are equal, and either the slot last received what the
      device last sent, or the device has executed the slot's last command and
      its reply, cached beside the command or, for an applied COMSET, still on
      the line, is one that the slot will verify and that brings the chains
      together again. */
  lemma {:induction false} ChainLockstep(c: Cipher, cfg: Config, s: System, actions: seq<Action>)
    requires Inverts(c) && WellBound(cfg)
    requires Start(s) && Secured(s.slot) && AllPermitted(c, cfg, s, actions)
    ensures var t := Run(c, cfg, s, actions);
            && Secured(t.slot) && t.device.session.established && t.slot.session.keys == t.device.session.keys
            && (|| t.slot.session.lastInbound == t.device.session.lastOutbound
                || (&& t.outstanding.Some? && OutstandingWire(c, t).Success? && |t.device.log| > 0
                    && (if t.device.haveLast then t.device.lastCmd == Raw(OutstandingWire(c, t).value.wire)
                        else t.line.ToPanel? && Stages(t.outstanding.value))
                    && var e := t.device.log[|t.device.log| - 1];
                    && e.result.Reply?
                    && Answers(c, t.slot, if t.device.haveLast then t.device.lastReply else t.line.wire,
                               e.result.code, e.result.payload, t.device.session.lastOutbound)))
  {
    hide Act, CommandWire, Answers, Permitted;
    StartIsInvariant(c, cfg, s);
    RunKeeps(c, cfg, s, actions);
    RunKeepsMode(c, cfg, s, actions);
  }

  lemma {:induction false} ActKeepsMode(c: Cipher, cfg: Config, s: System, a: Action)
    requires Inverts(c) && WellBound(cfg)
    requires Invariant(c, cfg, s) && Permitted(c, cfg, s, a)
    ensures Act(c, cfg, s, a).slot.phase == s.slot.phase
  {
    hide CommandWire, Answers, Controllers.Receive, Devices.Receive, Invariant;
    match a
    case ReplyIn =>
      if s.line.ToPanel? {
        ReplyInIsAnswered(c, cfg, s);
      }
    case _ =>
  }

  lemma {:induction false} RunKeepsMode(c: Cipher, cfg: Config, s: System, actions: seq<Action>)
    requires Inverts(c) && WellBound(cfg)
    requires Invariant(c, cfg, s) && AllPermitted(c, cfg, s, actions)
    ensures Run(c, cfg, s, actions).slot.phase == s.slot.phase
    decreases |actions|
  {
    hide Invariant, Act, Permitted;
    if actions != [] {
      var n := |actions| - 1;
      RunKeepsMode(c, cfg, s, actions[..n]);
      RunKeeps(c, cfg, s, actions[..n]);
      ActKeepsMode(c, cfg, Run(c, cfg, s, actions[..n]), actions[n]);
    }
  }

  /** At-most-once execution, plaintext or secured. After every permitted run
      the executed commands are the issued ones, in order and without
      repetition, except that the newest may still be missing; a command whose
      answer was delivered was executed exactly once, and the answer is the
      reply of that execution. */
  lemma {:induction false} AtMostOnce(c: Cipher, cfg: Config, s: System, actions: seq<Action>)
    requires Inverts(c) && WellBound(cfg)
    requires Start(s) && AllPermitted(c, cfg, s, actions)
    ensures var t := Run(c, cfg, s, actions);
            var log, answers := t.device.log, t.slot.answers;
            && |answers| <= |log| <= |t.issued| <= |answers| + 1
            && (t.outstanding.None? ==> |answers| == |t.issued|)
            && (forall i :: 0 <= i < |log| ==> Order(log[i].code, log[i].payload) == t.issued[i])
            && (forall i :: 0 <= i < |answers| ==>
                  answers[i].cmdCode == t.issued[i].code
                  && log[i].result == Reply(answers[i].code, answers[i].payload))
  {
    hide Act, CommandWire, Answers, Permitted;
    StartIsInvariant(c, cfg, s);
    RunKeeps(c, cfg, s, actions);
  }

  /** The delivered answers that report queued events. */
  function EventsSeen(answers: seq<Answer>, log: seq<Entry>): seq<Event>
    requires |answers| <= |log|
    decreases |answers|
  {
    if answers == [] then []
    else
      var n := |answers| - 1;
      EventsSeen(answers[..n], log) +
      if log[n].fromQueue then [Event(answers[n].code, answers[n].payload)] else []
  }

  lemma {:induction false} SeenAreReported(answers: seq<Answer>, log: seq<Entry>)
    requires |answers| <= |log|
    requires forall i :: 0 <= i < |answers| ==> log[i].result == Reply(answers[i].code, answers[i].payload)
    ensures EventsSeen(answers, log) == Reported(log[..|answers|])
    decreases |answers|
  {
    if answers != [] {
      var n := |answers| - 1;
      SeenAreReported(answers[..n], log);
      assert log[..n + 1][..n] == log[..n];
    }
  }

  lemma {:induction false} ReportedPrefix(log: seq<Entry>, n: nat)
    requires n <= |log|
    ensures Reported(log[..n]) <= Reported(log)
    decreases |log|
  {
    if n < |log| {
      var m := |log| - 1;
      ReportedPrefix(log[..m], n);
      assert log[..m][..n] == log[..n];
    } else {
      assert log[..n] == log;
    }
  }

  /** End-to-end events: what the application behind the panel has been told is
      always a prefix, in order, of the events the device accepted; none is
      lost or delivered twice because a frame was lost. */
  lemma {:induction false} EventsInOrder(c: Cipher, cfg: Config, s: System, actions: seq<Action>)
    requires Inverts(c) && WellBound(cfg)
    requires Start(s) && AllPermitted(c, cfg, s, actions)
    ensures var t := Run(c, cfg, s, actions);
            && |t.slot.answers| <= |t.device.log|
            && EventsSeen(t.slot.answers, t.device.log) <= t.device.accepted
            && (t.outstanding.None? ==>
                  t.device.accepted == EventsSeen(t.slot.answers, t.device.log) + t.device.queue)
  {
    hide Act, CommandWire, Answers, Permitted;
    StartIsInvariant(c, cfg, s);
    RunKeeps(c, cfg, s, actions);
    var t := Run(c, cfg, s, actions);
    SeenAreReported(t.slot.answers, t.device.log);
    ReportedPrefix(t.device.log, |t.slot.answers|);
    if t.outstanding.None? {
      assert t.device.log[..|t.slot.answers|] == t.device.log;
    }
  }

  // ---- A retry gets through ----

  /** Nothing is on the line, the wait is over, and the command is sent again. */
  function Resent(c: Cipher, cfg: Config, s: System): System {
    Act(c, cfg, Act(c, cfg, Act(c, cfg, s, Lose), Expire), Repeat)
  }

  lemma {:induction false} ResentIsOnTheLine(c: Cipher, cfg: Config, s: System)
    requires Inverts(c) && WellBound(cfg) && Invariant(c, cfg, s) && s.outstanding.Some?
    requires Permitted(c, cfg, s, Lose)
    ensures var t := Resent(c, cfg, s);
            && Invariant(c, cfg, t) && t.line.ToDevice? && t.outstanding == s.outstanding
            && t.slot.answers == s.slot.answers && t.device == s.device && t.slot.address == s.slot.address
            && t.slot.phase == s.slot.phase && t.slot.integrity == s.slot.integrity
            && OutstandingWire(c, t) == OutstandingWire(c, s)
  {
    hide CommandWire, SendCommand, Seen, Unseen, RecordsAgree, EventsConserved;
    var s1 := Act(c, cfg, s, Lose);
    var s2 := Act(c, cfg, s1, Expire);
    var o := s.outstanding.value;
    LoseKeeps(c, cfg, s);
    ExpireKeeps(c, cfg, s1);
    RepeatKeeps(c, cfg, s2);
    WireUnchanged(c, s1.slot, s2.slot, o.code, o.payload);
    SendsWhenFree(c, s2.slot, o.code, o.payload);
    SendingKeepsWire(c, s2.slot, o.code, o.payload);
  }

  lemma {:induction false} SendsWhenFree(c: Cipher, a: Slot, code: byte, payload: seq<byte>)
    ensures SendCommand(c, a, code, payload).Success? <==> !a.waiting && CommandWire(c, a, code, payload).Success?
  {
    hide CommandWire;
  }

  /** The device has executed or refused the outstanding command before. */
  predicate Remembers(c: Cipher, s: System)
    requires s.outstanding.Some?
  {
    OutstandingWire(c, s).Success? && s.device.haveLast && s.device.lastCmd == Raw(OutstandingWire(c, s).value.wire)
  }

  /** A new command gets no reply: it has no room, the application gives none, or
      the reply has no room. */
  predicate Withholds(cfg: Config, a: Slot, d: Device, o: Order, app: App) {
    || (Secured(a) && Cramped(cfg.plainCap, o.payload))
    || match Decide(d, o.code, o.payload, app).result
       case Reply(_, payload) => !ReplyFits(cfg.txCap, Secured(a), a.integrity, |payload|)
       case _ => true
  }

  /** What decides, before the command is delivered, whether it gets a reply. */
  predicate Silence(c: Cipher, cfg: Config, s: System, app: App)
    requires s.outstanding.Some?
  {
    || !Hears(s)
    || if Remembers(c, s) then s.device.lastReply == []
       else Withholds(cfg, s.slot, s.device, s.outstanding.value, app)
  }

  lemma {:induction false} PlainWithholds(cfg: Config, a: Slot, d: Device, o: Order, cmd: Frame, app: App)
    requires !Secured(a) && SameMode(a, d) && Accepted(a, d, o) && d.newAddress.None? && !app.verdict.Busy?
    requires !cmd.hasScb && cmd.code == o.code && cmd.payload == o.payload && cmd.integrity == a.integrity
    requires cmd.address < 128 && cmd.sequence < 4
    ensures HandlePlain(cfg, d, cmd, app).reply == [] <==> Withholds(cfg, a, d, o, app)
  {
    hide Build, Decide, ReplyFits;
    Policies.DecideOutcome(d, cmd.code, cmd.payload, app);
    match Decide(d, cmd.code, cmd.payload, app).result
    case Reply(code, payload) =>
      PlainReplyFits(cmd, code, payload, cfg.txCap);
      BuiltFits(PlainReply(cmd, code, payload), cfg.txCap);
    case _ =>
  }

  lemma {:induction false} DecideIgnoresSession(d: Device, session: Session, code: byte, payload: seq<byte>, app: App)
    ensures var x := Decide(d, code, payload, app);
            Decide(d.(session := session), code, payload, app) == x.(device := x.device.(session := session))
  {
    hide KeysetKey;
  }

  lemma {:induction false} SecureWithholds(c: Cipher, cfg: Config, a: Slot, d: Device, o: Order, cmd: Frame, raw: seq<byte>, app: App, mac: Block)
    requires Secured(a) && SameMode(a, d) && d.newAddress.None? && !app.verdict.Busy?
    requires cmd.code == o.code && cmd.integrity == a.integrity && cmd.address < 128 && cmd.sequence < 4
    requires Unwrap(c, d.session, cmd, raw, cfg.plainCap) ==
             if Cramped(cfg.plainCap, o.payload) then Failure(BufferTooSmall) else Success(Unwrapped(o.payload, mac))
    ensures HandleOperational(c, cfg, d, cmd, raw, app).reply == [] <==> Withholds(cfg, a, d, o, app)
  {
    hide Build, Wrap, Unwrap, Decide, ReplyFits, Cramped;
    if !Cramped(cfg.plainCap, o.payload) {
      var s1 := AfterUnwrap(d.session, Unwrapped(o.payload, mac));
      Policies.DecideOutcome(d, o.code, o.payload, app);
      DecideIgnoresSession(d, s1, o.code, o.payload, app);
      var x := Dispatch(d.(session := s1), Secure, o.code, o.payload, app);
      Policies.DecideKeeps(d.(session := s1), o.code, o.payload, app);
      match x.result
      case Reply(code, payload) =>
        SecureReplyFits(c, x.device.session, cmd, code, payload, cfg.txCap);
        WrappedFits(c, x.device.session, SecureReply(cmd, code, payload), cfg.txCap);
      case _ =>
    }
  }

  /** Whether a command that the device does not remember is answered. */
  lemma {:induction false} FreshReply(c: Cipher, cfg: Config, s: System, app: App)
    requires Inverts(c) && WellBound(cfg) && Invariant(c, cfg, s) && Unseen(c, s)
    requires s.line.ToDevice? && !app.verdict.Busy? && Hears(s)
    ensures Devices.Receive(c, cfg, s.device, Raw(s.line.wire), app).reply == [] <==>
            Withholds(cfg, s.slot, s.device, s.outstanding.value, app)
    ensures !Remembers(c, s)
  {
    hide Decode, CommandWire, Answers, Reported, EventsConserved, HandlePlain, HandleOperational, Withholds, Cramped;
    var o := s.outstanding.value;
    var w := OutstandingWire(c, s).value;
    var raw := Raw(w.wire);
    CommandArrives(c, s.slot, o.code, o.payload);
    var cmd := Decode(raw).value;
    assert !IsRetransmit(s.device, cmd, raw);
    if Secured(s.slot) {
      CommandUnwraps(c, s.slot, o.code, o.payload, s.device.session, cfg.plainCap);
      SecureWithholds(c, cfg, s.slot, s.device, o, cmd, raw, app, w.mac);
    } else {
      PlainWithholds(cfg, s.slot, s.device, o, cmd, app);
    }
  }

  /** Whatever was lost before, one more attempt that is not lost completes the
      outstanding command, in step again and with its answer delivered once,
      unless the device has nothing to say, which is known beforehand: it has
      another address, remembers that it had no reply, or would have none now. */
  lemma {:induction false} RetryCompletes(c: Cipher, cfg: Config, s: System, app: App)
    requires Inverts(c) && WellBound(cfg) && Invariant(c, cfg, s) && s.outstanding.Some?
    requires !app.verdict.Busy? && Permitted(c, cfg, s, Lose)
    ensures var d := Act(c, cfg, Resent(c, cfg, s), CommandIn(app));
            var t := Act(c, cfg, d, ReplyIn);
            if Silence(c, cfg, s, app) then t == d && d.line.Quiet? && t.outstanding == s.outstanding
            else
              && t.outstanding.None? && InStep(t)
              && |t.slot.answers| == |s.slot.answers| + 1 == |t.device.log|
              && t.slot.answers[..|s.slot.answers|] == s.slot.answers
  {
    hide Act, Resent, CommandWire, EventsConserved, Answers, Devices.Receive, Withholds, Raw;
    ResentIsOnTheLine(c, cfg, s);
    var r := Resent(c, cfg, s);
    CommandInKeeps(c, cfg, r, app);
    var d := Act(c, cfg, r, CommandIn(app));
    CommandReached(c, cfg, r, app);
    SameSilence(c, cfg, s, r, app);
    if d.line.ToPanel? {
      ReplyInIsAnswered(c, cfg, d);
    } else {
      NoReplyNoChange(c, cfg, d);
    }
  }

  lemma {:induction false} SameSilence(c: Cipher, cfg: Config, s: System, t: System, app: App)
    requires s.outstanding.Some? && t.outstanding == s.outstanding && t.device == s.device
    requires t.slot.address == s.slot.address && t.slot.phase == s.slot.phase && t.slot.integrity == s.slot.integrity
    requires OutstandingWire(c, t) == OutstandingWire(c, s)
    ensures Silence(c, cfg, t, app) == Silence(c, cfg, s, app)
  {
    hide Decide, CommandWire, Cramped, ReplyFits;
  }

  /** With room for the command and for any reply up to the length of an event or
      of the application's own, a device that hears the slot, has not met the
      command before and whose application replies always completes the retry. */
  lemma {:induction false} RoomCompletes(c: Cipher, cfg: Config, s: System, app: App)
    requires Inverts(c) && WellBound(cfg) && Invariant(c, cfg, s) && s.outstanding.Some?
    requires app.verdict.Reply? && Permitted(c, cfg, s, Lose) && Hears(s) && !Remembers(c, s)
    requires Secured(s.slot) ==> !Cramped(cfg.plainCap, s.outstanding.value.payload)
    requires ReplyFits(cfg.txCap, Secured(s.slot), s.slot.integrity, |app.verdict.payload| + SCRATCH_LEN)
    ensures Act(c, cfg, Act(c, cfg, Resent(c, cfg, s), CommandIn(app)), ReplyIn).outstanding.None?
  {
    hide Act, Resent, CommandWire, Invariant, ReplyFits, Cramped, Permitted, InStep, Remembers, Hears, Decide;
    RetryCompletes(c, cfg, s, app);
    var o := s.outstanding.value;
    ReplyIsShort(s.device, o.code, o.payload, app);
    FitsBelow(cfg.txCap, Secured(s.slot), s.slot.integrity,
              |Decide(s.device, o.code, o.payload, app).result.payload|, |app.verdict.payload| + SCRATCH_LEN);
  }

  lemma {:induction false} ReplyIsShort(d: Device, code: byte, payload: seq<byte>, app: App)
    requires app.verdict.Reply?
    ensures var v := Decide(d, code, payload, app).result;
            v.Reply? && |v.payload| <= |app.verdict.payload| + SCRATCH_LEN
  {
    hide KeysetKey;
  }

  /** A delivered command leaves its reply on the line, the remembered one or a
      new one, or nothing if the device has nothing to say. */
  lemma {:induction false} CommandReached(c: Cipher, cfg: Config, s: System, app: App)
    requires Inverts(c) && WellBound(cfg) && Invariant(c, cfg, s) && s.line.ToDevice? && !app.verdict.Busy?
    ensures var d := Act(c, cfg, s, CommandIn(app));
            && d.slot == s.slot && d.outstanding == s.outstanding
            && !d.line.ToDevice?
            && (d.line.Quiet? <==> Silence(c, cfg, s, app))
  {
    hide Decode, CommandWire, Answers, Reported, EventsConserved, Devices.Receive, Withholds;
    if !Hears(s) {
      NotHeard(c, cfg, s, app);
    } else if Seen(c, s) {
      SeenCommandReplays(c, cfg, s, app);
    } else {
      FreshReply(c, cfg, s, app);
    }
  }

  // ---- Giving up a command ----

  /** A command can be given up without harm to the chain as long as the device
      has not met it or had no reply to it; otherwise, unless the reply's MAC is
      the chain's old value, the next command, whatever it is, is checked
      against another whole MAC. */
  lemma {:induction false} AbandonedChain(c: Cipher, cfg: Config, s: System, code: byte, payload: seq<byte>)
    requires Inverts(c) && Invariant(c, cfg, s) && s.outstanding.Some? && s.line.Quiet? && Secured(s.slot)
    requires CommandWire(c, s.slot, code, payload).Success?
    ensures !Remembers(c, s) || s.device.lastReply == [] ==> InStep(s)
    ensures !InStep(s) ==>
              ChecksAnotherMac(c, s.(line := ToDevice(CommandWire(c, s.slot, code, payload).value.wire)),
                               CommandWire(c, s.slot, code, payload).value.mac)
  {
    hide Decode, CommandWire, Answers, Reported, EventsConserved, Recomputed, RecordsAgree;
    CommandArrives(c, s.slot, s.outstanding.value.code, s.outstanding.value.payload);
    if !InStep(s) {
      StaleMac(c, s.slot, code, payload, s.device.session);
    }
  }

  // ---- Why the reply to a COMSET must not be lost ----

  /** The application leaves the device the address it has. */
  predicate KeepsAddress(d: Device, app: App) {
    app.comAddress > MAX_ADDR || app.comAddress == d.address
  }

  lemma {:induction false} ClearComsetRuns(c: Cipher, cfg: Config, d: Device, cmd: Frame, raw: seq<byte>, app: App)
    requires !cmd.hasScb && StagesComset(cmd.code, cmd.payload) && !d.session.established
    requires d.newAddress.None? && !IsRetransmit(d, cmd, raw)
    ensures var e := Process(c, cfg, d, cmd, raw, app).device;
            && |e.log| == |d.log| + 1 && !e.haveLast && e.newAddress.None? && e.session == d.session
            && e.address == (if KeepsAddress(d, app) then d.address else app.comAddress)
  {
    hide Build;
  }

  /** Where the outstanding COMSET is about to reach a device that hears it. */
  predicate ComsetArrives(c: Cipher, cfg: Config, s: System) {
    && Invariant(c, cfg, s) && Unseen(c, s) && s.line.ToDevice? && Hears(s) && Stages(s.outstanding.value)
  }

  /** The system after the command is delivered, its reply lost, and the wait
      over and the command sent again. */
  function LostAndResent(c: Cipher, cfg: Config, s: System, app: App): System {
    Resent(c, cfg, Act(c, cfg, s, CommandIn(app)))
  }

  lemma {:induction false} ResentWire(c: Cipher, cfg: Config, s: System, app: App)
    requires ComsetArrives(c, cfg, s)
    ensures var t := LostAndResent(c, cfg, s, app);
            && t.line == s.line && t.outstanding == s.outstanding && t.issued == s.issued
            && t.slot.session == s.slot.session && t.slot.address == s.slot.address
            && t.device == Act(c, cfg, s, CommandIn(app)).device
  {
    hide CommandWire, SendCommand, Devices.Receive, Answers, Reported, EventsConserved, RecordsAgree, Unseen, Seen;
    var a := ReplyTimeout(s.slot);
    var o := s.outstanding.value;
    WireUnchanged(c, s.slot, a, o.code, o.payload);
    SendsWhenFree(c, a, o.code, o.payload);
    SendingKeepsWire(c, a, o.code, o.payload);
  }

  /** In clear text a COMSET whose reply is lost is executed a second time when
      it is repeated, so that more commands have been executed than were issued,
      exactly if the device still hears the slot: it keeps its address, or the
      slot uses the broadcast address. */
  lemma {:induction false} LostComRunsAgain(c: Cipher, cfg: Config, s: System, app: App, app': App)
    requires ComsetArrives(c, cfg, s) && !Secured(s.slot)
    ensures var t := Act(c, cfg, LostAndResent(c, cfg, s, app), CommandIn(app'));
            var again := KeepsAddress(s.device, app) || s.slot.address == BROADCAST;
            && |t.device.log| == |t.issued| + (if again then 1 else 0)
            && (again <==> Hears(Act(c, cfg, s, CommandIn(app))))
  {
    hide CommandWire, Decode, Process, Answers, Reported, EventsConserved, LostAndResent;
    ResentWire(c, cfg, s, app);
    var o := s.outstanding.value;
    CommandArrives(c, s.slot, o.code, o.payload);
    var raw := Raw(s.line.wire);
    var cmd := Decode(raw).value;
    assert !IsRetransmit(s.device, cmd, raw);
    ClearComsetRuns(c, cfg, s.device, cmd, raw, app);
    var d := Process(c, cfg, s.device, cmd, raw, app).device;
    ClearComsetRuns(c, cfg, d, cmd, raw, app');
  }

  /** The MAC the device computes for the received frame. */
  function Recomputed(c: Cipher, s: Session, cmd: Frame, raw: seq<byte>): Block
    requires |raw| >= CheckLen(cmd.integrity) + Macs.TRUNCATED
  {
    Macs.Mac(c, s.keys.mac1, s.keys.mac2, s.lastOutbound, raw[..|raw| - CheckLen(cmd.integrity) - Macs.TRUNCATED])
  }

  lemma {:induction false} StaleMac(c: Cipher, a: Slot, code: byte, payload: seq<byte>, d: Session)
    requires Inverts(c) && Secured(a) && CommandWire(c, a, code, payload).Success? && a.nextSeq < 4
    requires d.keys == a.session.keys && d.lastOutbound != a.session.lastInbound
    ensures var w := CommandWire(c, a, code, payload).value;
            var raw := Raw(w.wire);
            && Decode(raw).Success?
            && var cmd := Decode(raw).value;
            && cmd.mac == w.mac[..Macs.TRUNCATED] && TagLen(cmd) > 0
            && (Encrypted(cmd.scbType) <==> payload != [])
            && |raw| >= CheckLen(cmd.integrity) + Macs.TRUNCATED
            && Recomputed(c, d, cmd, raw) != w.mac
  {
    hide Decode, Build, Wrap, Unwrap, Macs.Mac, Staged;
    var f := CommandFrame(a, code, payload);
    WrapNonEmpty(c, a.session, f, Controllers.BUF_LEN);
    WrapIsBuild(c, a.session, f, Controllers.BUF_LEN);
    WrapTypes(c, a.session, f, Controllers.BUF_LEN);
    SpelledHeader(Final(c, a.session, f, Controllers.BUF_LEN), Controllers.BUF_LEN);
    FinalFields(c, a.session, f, Controllers.BUF_LEN);
    WrappedMacInput(c, a.session, f, Controllers.BUF_LEN);
    var raw := Raw(CommandWire(c, a, code, payload).value.wire);
    Macs.MacInjectiveInIcv(c, a.session.keys.mac1, a.session.keys.mac2, d.lastOutbound, a.session.lastInbound,
                           raw[..|raw| - CheckLen(f.integrity) - Macs.TRUNCATED]);
  }

  /** A secured command is executed exactly if it unwraps. */
  lemma {:induction false} RunsIfUnwrapped(c: Cipher, cfg: Config, d: Device, cmd: Frame, raw: seq<byte>, app: App)
    requires cmd.hasScb && (cmd.scbType == 0x15 || cmd.scbType == 0x17) && !d.haveLast && d.newAddress.None?
    requires ScConfigured(cfg, d) && d.session.established
    ensures var step := Process(c, cfg, d, cmd, raw, app);
            var u := Unwrap(c, d.session, cmd, raw, cfg.plainCap);
            && (step.device.log != d.log <==> u.Success?)
            && (u.Failure? ==> step.reply == [])
  {
    hide Unwrap, Decide, FrameSecure;
    match Unwrap(c, d.session, cmd, raw, cfg.plainCap)
    case Failure(_) =>
    case Success(u) =>
      var d1 := d.(session := AfterUnwrap(d.session, u));
      Policies.DecideKeeps(d1, cmd.code, u.plain, app);
      FramingKeepsLog(c, cfg, Dispatch(d1, Secure, cmd.code, u.plain, app).device, cmd,
                      Dispatch(d1, Secure, cmd.code, u.plain, app).result);
  }

  lemma {:induction false} FramingKeepsLog(c: Cipher, cfg: Config, d: Device, cmd: Frame, v: Verdict)
    ensures FrameSecure(c, cfg, d, cmd, v).device.log == d.log
  {
    hide Wrap, Build;
  }

  lemma {:induction false} UnwrapsIf(c: Cipher, s: Session, cmd: Frame, raw: seq<byte>, room: nat)
    requires s.established && TagLen(cmd) > 0 && |cmd.mac| == Macs.TRUNCATED && Encrypted(cmd.scbType)
    requires |raw| >= CheckLen(cmd.integrity) + Macs.TRUNCATED
    ensures Unwrap(c, s, cmd, raw, room).Success? <==>
            && Recomputed(c, s, cmd, raw)[..Macs.TRUNCATED] == cmd.mac
            && Payloads.Decrypt(c, s.keys.enc, s.lastOutbound, cmd.payload, room).Success?
  {
    hide Macs.Mac, Payloads.Decrypt;
  }

  /** The device holds a chain under which the frame on the line has another
      whole MAC than the one it was sent with. */
  predicate ChecksAnotherMac(c: Cipher, t: System, sent: Block) {
    t.line.ToDevice? &&
    var raw := Raw(t.line.wire);
    Decode(raw).Success? &&
    var cmd := Decode(raw).value;
    |raw| >= CheckLen(cmd.integrity) + Macs.TRUNCATED && Recomputed(c, t.device.session, cmd, raw) != sent
  }

  /** The first four bytes, which is all that is sent, agree nevertheless. */
  predicate Collides(c: Cipher, t: System, sent: Block) {
    t.line.ToDevice? &&
    var raw := Raw(t.line.wire);
    Decode(raw).Success? &&
    var cmd := Decode(raw).value;
    |raw| >= CheckLen(cmd.integrity) + Macs.TRUNCATED &&
    Recomputed(c, t.device.session, cmd, raw)[..Macs.TRUNCATED] == sent[..Macs.TRUNCATED]
  }

  /** The frame on the line decrypts to padded bytes under the device's chain. */
  predicate Decrypts(c: Cipher, cfg: Config, t: System) {
    t.line.ToDevice? &&
    var raw := Raw(t.line.wire);
    Decode(raw).Success? &&
    var d := t.device.session;
    Payloads.Decrypt(c, d.keys.enc, d.lastOutbound, Decode(raw).value.payload, cfg.plainCap).Success?
  }

  /** Under a session the repetition is checked against a chain that the lost
      reply has moved: the whole MACs differ, and it is executed again exactly if
      the device still hears the slot, the four bytes that are sent agree by
      chance, and the payload decrypts under the moved chain; else it is met with
      silence. */
  lemma {:induction false} LostComIsRefused(c: Cipher, cfg: Config, s: System, app: App, t: System, app': App, w: Wrapped)
    requires Inverts(c) && WellBound(cfg) && ComsetArrives(c, cfg, s) && Secured(s.slot) && !app.verdict.Busy?
    requires OutstandingWire(c, s) == Success(w) && t == LostAndResent(c, cfg, s, app)
    requires t.device.log != s.device.log && t.device.session.lastOutbound != s.slot.session.lastInbound
    ensures ChecksAnotherMac(c, t, w.mac)
    ensures var v := Act(c, cfg, t, CommandIn(app'));
            var again := Hears(t) && Collides(c, t, w.mac) && Decrypts(c, cfg, t);
            (v.device.log != t.device.log <==> again) && (!again ==> v.line.Quiet?)
  {
    hide CommandWire, Decode, Process, Answers, Reported, EventsConserved, LostAndResent, Recomputed, Unseen, Seen, Unwrap, Payloads.Decrypt;
    ResentWire(c, cfg, s, app);
    NewCommandExecutes(c, cfg, s, app);
    var o := s.outstanding.value;
    CommandArrives(c, s.slot, o.code, o.payload);
    StaleMac(c, s.slot, o.code, o.payload, t.device.session);
    var raw := Raw(t.line.wire);
    var cmd := Decode(raw).value;
    if Hears(t) {
      RunsIfUnwrapped(c, cfg, t.device, cmd, raw, app');
      UnwrapsIf(c, t.device.session, cmd, raw, cfg.plainCap);
    }
  }
}
