/** What a device guarantees against any traffic: when a retransmit is answered
    from the cache, how BUSY leaves a secured command repeatable, and what a
    device in secure mode never does in clear text. */
module Policies {
  import opened Bytes
  import opened Codes
  import opened Frames
  import opened Ciphers
  import opened Keys
  import opened Wrapping
  import opened EventQueues
  import opened Devices
  import Controllers
  import Exchanges

  // ---- Retransmits ----

  /** The payload with which a command reaches the dispatch, if the clear-text
      policy or the MAC lets it. */
  function Reaching(c: Cipher, cfg: Config, d: Device, cmd: Frame, raw: seq<byte>): Option<seq<byte>> {
    if !cmd.hasScb then
      if d.session.established && cmd.sequence != 0 then None
      else if d.scbk.Some? && !AllowedInClear(cmd.code) then None
      else Some(cmd.payload)
    else if ScConfigured(cfg, d) && (cmd.scbType == 0x15 || cmd.scbType == 0x17) && d.session.established then
      match Unwrap(c, d.session, cmd, raw, cfg.plainCap)
      case Success(u) => Some(u.plain)
      case Failure(_) => None
    else None
  }

  /** The dispatch answers BUSY: the application says so and is asked. */
  predicate AnswersBusy(d: Device, code: byte, app: App) {
    app.verdict.Busy? && code != CMD_COMSET && !(code == CMD_POLL && Dequeue(d.queue).event.Some?)
  }

  lemma {:induction false} DecideOutcome(d: Device, code: byte, payload: seq<byte>, app: App)
    requires d.newAddress.None?
    ensures var x := Decide(d, code, payload, app);
            && (x.result.Busy? <==> AnswersBusy(d, code, app))
            && (x.device.newAddress.Some? <==> StagesComset(code, payload))
  {
    hide KeysetKey;
  }

  lemma {:induction false} HandleReaches(c: Cipher, cfg: Config, d: Device, cmd: Frame, raw: seq<byte>, app: App)
    requires d.newAddress.None?
    ensures var h := Handle(c, cfg, d, cmd, raw, app);
            var p := Reaching(c, cfg, d, cmd, raw);
            && (!h.cacheable <==> p.Some? && AnswersBusy(d, cmd.code, app))
            && (h.device.newAddress.Some? <==> p.Some? && StagesComset(cmd.code, p.value))
  {
    hide Build, Wrap, Unwrap, Decide, AnswersBusy, HandleChlng, HandleScrypt, HandlePlain, HandleOperational;
    if !cmd.hasScb {
      PlainReaches(c, cfg, d, cmd, raw, app);
    } else if cmd.scbType == 0x11 {
      ChlngReachesNothing(c, cfg, d, cmd, app);
    } else if cmd.scbType == 0x13 {
      ScryptReachesNothing(c, cfg, d, cmd);
    } else if ScConfigured(cfg, d) && (cmd.scbType == 0x15 || cmd.scbType == 0x17) {
      OperationalReaches(c, cfg, d, cmd, raw, app);
    }
  }

  lemma {:induction false} PlainReaches(c: Cipher, cfg: Config, d: Device, cmd: Frame, raw: seq<byte>, app: App)
    requires d.newAddress.None? && !cmd.hasScb
    ensures var h := HandlePlain(cfg, d, cmd, app);
            var p := Reaching(c, cfg, d, cmd, raw);
            && (!h.cacheable <==> p.Some? && AnswersBusy(d, cmd.code, app))
            && (h.device.newAddress.Some? <==> p.Some? && StagesComset(cmd.code, p.value))
  {
    hide Build, Decide;
    DecideOutcome(if d.session.established then DropSession(d) else d, cmd.code, cmd.payload, app);
  }

  lemma {:induction false} OperationalReaches(c: Cipher, cfg: Config, d: Device, cmd: Frame, raw: seq<byte>, app: App)
    requires d.newAddress.None? && cmd.hasScb && ScConfigured(cfg, d) && (cmd.scbType == 0x15 || cmd.scbType == 0x17)
    ensures var h := HandleOperational(c, cfg, d, cmd, raw, app);
            var p := Reaching(c, cfg, d, cmd, raw);
            && (!h.cacheable <==> p.Some? && AnswersBusy(d, cmd.code, app))
            && (h.device.newAddress.Some? <==> p.Some? && StagesComset(cmd.code, p.value))
  {
    hide Build, Wrap, Unwrap, Decide;
    if Unwrap(c, d.session, cmd, raw, cfg.plainCap).Success? {
      var u := Unwrap(c, d.session, cmd, raw, cfg.plainCap).value;
      DecideOutcome(d.(session := AfterUnwrap(d.session, u)), cmd.code, u.plain, app);
    }
  }

  lemma {:induction false} ChlngReachesNothing(c: Cipher, cfg: Config, d: Device, cmd: Frame, app: App)
    requires d.newAddress.None?
    ensures HandleChlng(c, cfg, d, cmd, app).cacheable && HandleChlng(c, cfg, d, cmd, app).device.newAddress.None?
  {
    hide Build, Derive, ClientCryptogram;
  }

  lemma {:induction false} ScryptReachesNothing(c: Cipher, cfg: Config, d: Device, cmd: Frame)
    requires d.newAddress.None?
    ensures HandleScrypt(c, cfg, d, cmd).cacheable && HandleScrypt(c, cfg, d, cmd).device.newAddress.None?
  {
    hide Build, ServerCryptogram, InitialRmac;
  }

  /** The exact condition under which repeating a command byte for byte is
      answered from the cache, on what arrives and what the application says: a
      sequence number other than zero, a command that fits the cache, and, if it
      reaches the dispatch, neither an answer of BUSY nor a well-formed COMSET,
      which drops the cache even when the address stays the same. */
  lemma {:induction false} ReplayExactly(c: Cipher, cfg: Config, d: Device, cmd: Frame, raw: seq<byte>, app: App)
    requires Decode(raw) == Success(cmd) && !IsRetransmit(d, cmd, raw) && d.newAddress.None?
    ensures var p := Reaching(c, cfg, d, cmd, raw);
            IsRetransmit(Process(c, cfg, d, cmd, raw, app).device, cmd, raw) <==>
            && cmd.sequence != 0 && |raw| <= cfg.commandCap
            && (p.Some? ==> !AnswersBusy(d, cmd.code, app) && !StagesComset(cmd.code, p.value))
  {
    hide Decode, Handle, Reaching, AnswersBusy;
    DecodedNotEmpty(raw);
    HandleReaches(c, cfg, d, cmd, raw, app);
  }

  lemma {:induction false} DecodedNotEmpty(raw: seq<byte>)
    requires Decode(raw).Success?
    ensures raw != []
  {
    hide DecodeTail, Le16;
  }

  /** A replay repeats the first reply without touching the device; when there
      was no reply, or one larger than the cache, the repeated command is met
      with silence rather than executed again. */
  lemma {:induction false} ReplayIsVerbatim(c: Cipher, cfg: Config, d: Device, cmd: Frame, raw: seq<byte>, app: App, app': App)
    requires Decode(raw) == Success(cmd) && !IsRetransmit(d, cmd, raw)
    requires IsRetransmit(Process(c, cfg, d, cmd, raw, app).device, cmd, raw)
    ensures var step := Process(c, cfg, d, cmd, raw, app);
            Process(c, cfg, step.device, cmd, raw, app') ==
            Step(step.device, if |step.reply| <= cfg.replyCap then step.reply else [])
  {
    hide Decode, Handle;
  }

  /** A dispatched command is recorded once, whatever comes of it. */
  lemma {:induction false} DecideKeeps(d: Device, code: byte, payload: seq<byte>, app: App)
    ensures var x := Decide(d, code, payload, app);
            && x.device == d.(scbk := x.device.scbk, queue := x.device.queue, newAddress := x.device.newAddress)
            && (code != CMD_COMSET ==> x.device.newAddress == d.newAddress)
            && (code != CMD_KEYSET ==> x.device.scbk == d.scbk)
            && (x.result.Busy? ==> x.device == d.(queue := x.device.queue) && !x.fromQueue)
  {
    hide KeysetKey;
  }

  lemma {:induction false} ClearCommandRuns(c: Cipher, cfg: Config, d: Device, cmd: Frame, raw: seq<byte>, app: App)
    requires cmd.sequence == 0 && !cmd.hasScb && !d.session.established && d.scbk.None?
    requires cmd.code != CMD_KEYSET && cmd.code != CMD_COMSET && d.newAddress.None?
    ensures var e := Process(c, cfg, d, cmd, raw, app).device;
            && |e.log| == |d.log| + 1 && !e.session.established && e.scbk.None? && e.newAddress.None?
  {
    hide Build, Decide;
    DecideKeeps(d, cmd.code, cmd.payload, app);
  }

  /** The first command of a fresh slot carries sequence number zero and is
      executed again each time it is repeated. */
  lemma {:induction false} SequenceZeroRunsAgain(c: Cipher, cfg: Config, d: Device, cmd: Frame, raw: seq<byte>, app: App)
    requires cmd.sequence == 0 && !cmd.hasScb && !d.session.established && d.scbk.None?
    requires cmd.code != CMD_KEYSET && cmd.code != CMD_COMSET && d.newAddress.None?
    ensures var once := Process(c, cfg, d, cmd, raw, app).device;
            var twice := Process(c, cfg, once, cmd, raw, app).device;
            |once.log| == |d.log| + 1 && |twice.log| == |d.log| + 2
  {
    hide Process;
    ClearCommandRuns(c, cfg, d, cmd, raw, app);
    ClearCommandRuns(c, cfg, Process(c, cfg, d, cmd, raw, app).device, cmd, raw, app);
  }

  // ---- BUSY ----

  /** A secured command, verified by this device. */
  predicate Verified(c: Cipher, cfg: Config, d: Device, cmd: Frame, raw: seq<byte>, u: Unwrapped) {
    && d.session.established && ScConfigured(cfg, d)
    && cmd.hasScb && (cmd.scbType == 0x15 || cmd.scbType == 0x17)
    && Unwrap(c, d.session, cmd, raw, cfg.plainCap) == Success(u)
  }

  /** The application is asked about the command: it is not COMSET, nor a poll
      with an event to hand back. */
  predicate ApplicationDecides(d: Device, code: byte) {
    && code != CMD_COMSET
    && (code == CMD_POLL ==> forall i :: 0 <= i < |d.queue| ==> |d.queue[i].payload| > SCRATCH_LEN)
  }

  /** osdp_BUSY as it goes out: clear text, sequence number zero. */
  function BusyFrame(cmd: Frame): Frame {
    PlainReply(cmd, REPLY_BUSY, []).(sequence := 0)
  }

  /** Unwrapping does not depend on what was received before. */
  lemma {:induction false} UnwrapRepeats(c: Cipher, s: Session, f: Frame, raw: seq<byte>, cap: nat, inbound: Block)
    ensures Unwrap(c, s.(lastInbound := inbound), f, raw, cap) == Unwrap(c, s, f, raw, cap)
  {}

  lemma {:induction false} BusyDecision(d: Device, code: byte, payload: seq<byte>, app: App)
    requires app.verdict.Busy? && ApplicationDecides(d, code)
    ensures var x := Decide(d, code, payload, app);
            && x.result.Busy? && !x.fromQueue && x.device == d.(queue := x.device.queue)
            && ApplicationDecides(x.device, code)
  {
    hide KeysetKey;
  }

  lemma {:induction false} BusyStep(c: Cipher, cfg: Config, d: Device, cmd: Frame, raw: seq<byte>, app: App, u: Unwrapped)
    requires Verified(c, cfg, d, cmd, raw, u) && app.verdict.Busy? && ApplicationDecides(d, cmd.code)
    requires !IsRetransmit(d, cmd, raw) && d.newAddress.None?
    ensures var step := Process(c, cfg, d, cmd, raw, app);
            var e := step.device;
            && e.session == d.session.(lastInbound := u.mac)
            && !e.haveLast && e.newAddress.None?
            && Verified(c, cfg, e, cmd, raw, u) && ApplicationDecides(e, cmd.code)
            && e.log == d.log + [Entry(Secure, cmd.code, u.plain, Verdict.Busy, false)]
            && (if Build(BusyFrame(cmd), cfg.txCap).Success? then step.reply == Build(BusyFrame(cmd), cfg.txCap).value
                else step.reply == [])
  {
    hide Build, Unwrap, Decide, HandleOperational, ApplicationDecides;
    UnwrapRepeats(c, d.session, cmd, raw, cfg.plainCap, u.mac);
    BusyHandled(c, cfg, d, cmd, raw, app, u);
    SameQueueDecides(HandleOperational(c, cfg, d, cmd, raw, app).device, Process(c, cfg, d, cmd, raw, app).device, cmd.code);
  }

  lemma {:induction false} SameQueueDecides(d: Device, e: Device, code: byte)
    requires e.queue == d.queue
    ensures ApplicationDecides(e, code) == ApplicationDecides(d, code)
  {}

  lemma {:induction false} BusyHandled(c: Cipher, cfg: Config, d: Device, cmd: Frame, raw: seq<byte>, app: App, u: Unwrapped)
    requires Verified(c, cfg, d, cmd, raw, u) && app.verdict.Busy? && ApplicationDecides(d, cmd.code)
    ensures var h := HandleOperational(c, cfg, d, cmd, raw, app);
            && h.device == d.(session := d.session.(lastInbound := u.mac), queue := h.device.queue,
                              log := d.log + [Entry(Secure, cmd.code, u.plain, Verdict.Busy, false)])
            && !h.cacheable && ApplicationDecides(h.device, cmd.code)
            && h.reply == (if Build(BusyFrame(cmd), cfg.txCap).Success? then Build(BusyFrame(cmd), cfg.txCap).value else [])
  {
    hide Build, Unwrap, Wrap, Decide, ApplicationDecides;
    var d1 := d.(session := AfterUnwrap(d.session, u));
    SameQueueDecides(d, d1, cmd.code);
    BusyDecision(d1, cmd.code, u.plain, app);
    SameQueueDecides(Decide(d1, cmd.code, u.plain, app).device, HandleOperational(c, cfg, d, cmd, raw, app).device, cmd.code);
  }

  /** The device after the same command was answered BUSY once for each entry of
      `apps`. */
  function Repeated(c: Cipher, cfg: Config, d: Device, cmd: Frame, raw: seq<byte>, apps: seq<App>): Device
    decreases |apps|
  {
    if apps == [] then d
    else
      var n := |apps| - 1;
      Process(c, cfg, Repeated(c, cfg, d, cmd, raw, apps[..n]), cmd, raw, apps[n]).device
  }

  /** After any number of BUSY answers, the same bytes still verify, are not
      answered from the cache, have reached the application each time, and the
      device's outbound chain has not moved. */
  lemma {:induction false} BusyIsRepeatable(c: Cipher, cfg: Config, d: Device, cmd: Frame, raw: seq<byte>, apps: seq<App>, u: Unwrapped)
    requires Verified(c, cfg, d, cmd, raw, u) && ApplicationDecides(d, cmd.code)
    requires !IsRetransmit(d, cmd, raw) && d.newAddress.None?
    requires forall i :: 0 <= i < |apps| ==> apps[i].verdict.Busy?
    ensures var e := Repeated(c, cfg, d, cmd, raw, apps);
            && Verified(c, cfg, e, cmd, raw, u) && ApplicationDecides(e, cmd.code)
            && e.session.keys == d.session.keys && e.session.lastOutbound == d.session.lastOutbound
            && !IsRetransmit(e, cmd, raw) && e.newAddress.None?
            && |e.log| == |d.log| + |apps| && d.log <= e.log
            && (forall k :: |d.log| <= k < |e.log| ==> e.log[k] == Entry(Secure, cmd.code, u.plain, Verdict.Busy, false))
    decreases |apps|
  {
    hide Unwrap, Process, ApplicationDecides;
    if apps != [] {
      var n := |apps| - 1;
      BusyIsRepeatable(c, cfg, d, cmd, raw, apps[..n], u);
      BusyStep(c, cfg, Repeated(c, cfg, d, cmd, raw, apps[..n]), cmd, raw, apps[n], u);
    }
  }

  lemma {:induction false} OperationalLog(c: Cipher, cfg: Config, d: Device, cmd: Frame, raw: seq<byte>, u: Unwrapped, app: App)
    requires d.session.established && Unwrap(c, d.session, cmd, raw, cfg.plainCap) == Success(u)
    ensures var x := Decide(d.(session := AfterUnwrap(d.session, u)), cmd.code, u.plain, app);
            HandleOperational(c, cfg, d, cmd, raw, app).device.log ==
            d.log + [Entry(Secure, cmd.code, u.plain, x.result, x.fromQueue)]
  {
    hide Unwrap, Build, Wrap, Decide;
    DecideKeeps(d.(session := AfterUnwrap(d.session, u)), cmd.code, u.plain, app);
  }

  lemma {:induction false} ProcessLog(c: Cipher, cfg: Config, d: Device, cmd: Frame, raw: seq<byte>, app: App)
    requires ScConfigured(cfg, d) && !IsRetransmit(d, cmd, raw)
    requires cmd.hasScb && (cmd.scbType == 0x15 || cmd.scbType == 0x17)
    ensures Process(c, cfg, d, cmd, raw, app).device.log == HandleOperational(c, cfg, d, cmd, raw, app).device.log
  {
    hide HandleOperational;
  }

  lemma {:induction false} VerifiedCommandRuns(c: Cipher, cfg: Config, d: Device, cmd: Frame, raw: seq<byte>, u: Unwrapped, app: App)
    requires d.session.established && ScConfigured(cfg, d) && !IsRetransmit(d, cmd, raw)
    requires cmd.hasScb && (cmd.scbType == 0x15 || cmd.scbType == 0x17)
    requires Unwrap(c, d.session, cmd, raw, cfg.plainCap) == Success(u)
    ensures var f := Process(c, cfg, d, cmd, raw, app).device;
            |f.log| == |d.log| + 1 && f.log[|d.log|].channel == Secure
            && f.log[|d.log|].code == cmd.code && f.log[|d.log|].payload == u.plain
  {
    hide Unwrap, Process, HandleOperational, Decide;
    OperationalLog(c, cfg, d, cmd, raw, u, app);
    ProcessLog(c, cfg, d, cmd, raw, app);
  }

  /** Once the application is ready, the repeated command is executed with the
      verified payload. */
  lemma {:induction false} BusyThenExecuted(c: Cipher, cfg: Config, d: Device, cmd: Frame, raw: seq<byte>, apps: seq<App>, u: Unwrapped, app: App)
    requires Verified(c, cfg, d, cmd, raw, u) && ApplicationDecides(d, cmd.code)
    requires !IsRetransmit(d, cmd, raw) && d.newAddress.None?
    requires forall i :: 0 <= i < |apps| ==> apps[i].verdict.Busy?
    ensures var e := Repeated(c, cfg, d, cmd, raw, apps);
            var f := Process(c, cfg, e, cmd, raw, app).device;
            |f.log| == |e.log| + 1 && f.log[|e.log|].channel == Secure
            && f.log[|e.log|].code == cmd.code && f.log[|e.log|].payload == u.plain
  {
    hide Unwrap, Repeated, ApplicationDecides, Process, IsRetransmit;
    BusyIsRepeatable(c, cfg, d, cmd, raw, apps, u);
    VerifiedCommandRuns(c, cfg, Repeated(c, cfg, d, cmd, raw, apps), cmd, raw, u, app);
  }

  /** An established panel slot spares a clear-text reply its session only for a
      BUSY with a sequence number other than zero... */
  lemma {:induction false} BusyExemption(a: Controllers.Slot, f: Frame)
    requires a.phase == Controllers.Phase.Established
    ensures Controllers.PlainReplyIn(a, f).phase == Controllers.Phase.Established <==>
            f.code == REPLY_BUSY && f.sequence != 0
  {}

  /** ...and the device's BUSY always carries zero, so it ends the panel's side
      of the session it was meant to leave alone. */
  lemma {:induction false} DeviceBusyEndsSession(c: Cipher, a: Controllers.Slot, cmd: Frame, cap: nat)
    requires a.phase == Controllers.Phase.Established && cmd.address == a.address
    requires Build(BusyFrame(cmd), cap).Success?
    ensures Controllers.Receive(c, a, Exchanges.Raw(Build(BusyFrame(cmd), cap).value)) ==
            Controllers.Reacted(Controllers.Terminate(a), [])
  {
    hide Build, Decode;
    Exchanges.SpelledHeader(BusyFrame(cmd), cap);
  }

  /** The bytes read back as a clear NAK with this error code, at the address and
      sequence number of `cmd`. */
  predicate IsNak(wire: seq<byte>, cmd: Frame, error: byte) {
    wire != [] && Decode(Exchanges.Raw(wire)).Success? &&
    var f := Decode(Exchanges.Raw(wire)).value;
    && f.reply && f.address == cmd.address && f.sequence == cmd.sequence && f.integrity == cmd.integrity
    && !f.hasScb && f.code == 0x41 && f.payload == [error]
  }

  lemma {:induction false} NakIsSent(cfg: Config, d: Device, cmd: Frame, error: byte)
    requires cmd.address < 128 && cmd.sequence < 4
    ensures var h := AnswerPlain(cfg, d, cmd, Nak(error));
            && h.device == d && h.cacheable
            && (if Exchanges.ReplyFits(cfg.txCap, false, cmd.integrity, 1) then IsNak(h.reply, cmd, error) else h.reply == [])
  {
    hide Build, Decode, Exchanges.ReplyFits;
    var f := PlainReply(cmd, REPLY_NAK, [error]);
    Exchanges.PlainReplyFits(cmd, REPLY_NAK, [error], cfg.txCap);
    if Build(f, cfg.txCap).Success? {
      Exchanges.SpelledHeader(f, cfg.txCap);
    }
  }

  /** A corrupted command for this device leaves the device alone and gets NAK
      0x01, room given; one for another address, or a reply, gets nothing. */
  lemma {:induction false} BadCheckAnswer(c: Cipher, cfg: Config, d: Device, raw: seq<byte>, app: App)
    requires FailsCheck(raw)
    ensures var step := Receive(c, cfg, d, raw, app);
            var id := Identity(raw);
            && step.device == d
            && (if !id.reply && id.address == d.address && Exchanges.ReplyFits(cfg.txCap, false, id.integrity, 1)
                then IsNak(step.reply, id, 0x01) else step.reply == [])
  {
    hide Decode, IsNak, AnswerPlain, Exchanges.ReplyFits;
    IdentityInRange(raw);
    NakIsSent(cfg, d, Identity(raw), NAK_BAD_CHECK);
  }

  /** What is reported of such bytes is what the header says. */
  lemma {:induction false} IdentityInRange(raw: seq<byte>)
    requires FailsCheck(raw)
    ensures |raw| > 4
    ensures var id := Identity(raw);
            && id.address < 128 && id.sequence < 4
            && raw[1] as int == id.address + (if id.reply then 128 else 0)
            && raw[4] % 4 == id.sequence && (raw[4] / 4) % 2 == (if id.integrity.Crc? then 1 else 0)
  {
    hide DecodeTail, Le16;
  }

  /** That NAK ends an established slot's session. */
  lemma {:induction false} BadCheckEndsSession(c: Cipher, cfg: Config, d: Device, raw: seq<byte>, app: App, a: Controllers.Slot)
    requires FailsCheck(raw) && a.phase == Controllers.Phase.Established && a.address == d.address
    ensures var step := Receive(c, cfg, d, raw, app);
            && step.device == d
            && (step.reply != [] ==>
                  Controllers.Receive(c, a, Exchanges.Raw(step.reply)) == Controllers.Reacted(Controllers.Terminate(a), []))
  {
    hide Build, Decode, Identity;
    var f := PlainReply(Identity(raw), REPLY_NAK, [NAK_BAD_CHECK]);
    if Build(f, cfg.txCap).Success? {
      Exchanges.SpelledHeader(f, cfg.txCap);
    }
  }

  // ---- Replies at the panel ----

  /** What a terminated session leaves: nothing pending, sequence zero, no session,
      and the event. */
  predicate Ended(a: Controllers.Slot, b: Controllers.Slot) {
    && b.phase == Controllers.Idle && b.session == NoSession() && !b.waiting && b.nextSeq == 0
    && b.answers == a.answers && b.events == a.events + [Controllers.SessionLost]
  }

  /** The slot took the reply as its answer and moves to the next number. */
  predicate Taken(a: Controllers.Slot, b: Controllers.Slot, code: byte, payload: seq<byte>) {
    && b.phase == a.phase && b.answers == a.answers + [Controllers.Answer(a.pendingCode, code, payload)]
    && !b.waiting && b.online && b.nextSeq == (if a.pendingSeq >= 3 then 1 else a.pendingSeq + 1)
  }

  /** A secured reply to an established slot: sequence number zero or, on the
      awaited number, a failing MAC or payload ends the session; one that verifies
      is delivered; any other is ignored. */
  lemma {:induction false} SecureReplyOutcome(c: Cipher, a: Controllers.Slot, f: Frame, raw: seq<byte>)
    requires a.phase == Controllers.Phase.Established
    ensures var b := Controllers.SecureReplyIn(c, a, f, raw);
            var u := Unwrap(c, a.session, f, raw, Controllers.BUF_LEN);
            var awaited := a.waiting && f.sequence == a.pendingSeq;
            if f.sequence == 0 || (awaited && u.Failure?) then Ended(a, b)
            else if awaited then Taken(a, b, f.code, u.value.plain) && b.session == a.session.(lastInbound := u.value.mac)
            else b == a
  {
    hide Unwrap;
  }

  /** A clear reply: what ends an established session, what is delivered, and what
      is ignored. */
  lemma {:induction false} PlainReplyOutcome(a: Controllers.Slot, f: Frame)
    ensures var b := Controllers.PlainReplyIn(a, f);
            if a.phase == Controllers.Phase.Established && (f.sequence == 0 || f.code != 0x79) then Ended(a, b)
            else if a.waiting && f.sequence == a.pendingSeq then Taken(a, b, f.code, f.payload) && b.session == a.session
            else b == a
  {}

  // ---- Clear text at the device ----

  /** Any clear command to a device with a session ends the session; with a
      sequence number other than zero it is answered NAK 0x06 and goes nowhere. */
  lemma {:induction false} ClearTextEndsSession(c: Cipher, cfg: Config, d: Device, cmd: Frame, raw: seq<byte>, app: App)
    requires !cmd.hasScb && d.session.established && cmd.address < 128 && cmd.sequence < 4
    ensures var h := Handle(c, cfg, d, cmd, raw, app);
            && h.device.session == NoSession() && !h.device.gotChlng
            && (cmd.sequence != 0 ==>
                  && h.device.log == d.log
                  && (if Exchanges.ReplyFits(cfg.txCap, false, cmd.integrity, 1) then IsNak(h.reply, cmd, 0x06)
                      else h.reply == []))
  {
    hide Decide, AnswerPlain, IsNak, Exchanges.ReplyFits, Build;
    NakIsSent(cfg, DropSession(d), cmd, NAK_ENCRYPTION_REQUIRED);
    DecideKeeps(DropSession(d), cmd.code, cmd.payload, app);
    PlainKeepsDevice(cfg, Dispatch(DropSession(d), Plain, cmd.code, cmd.payload, app).device, cmd,
                     Dispatch(DropSession(d), Plain, cmd.code, cmd.payload, app).result);
    NakKeepsDevice(cfg, DropSession(d), cmd);
  }

  lemma {:induction false} PlainKeepsDevice(cfg: Config, d: Device, cmd: Frame, v: Verdict)
    ensures FramePlain(cfg, d, cmd, v).device == d
  {
    hide Build;
  }

  lemma {:induction false} NakKeepsDevice(cfg: Config, d: Device, cmd: Frame)
    ensures AnswerPlain(cfg, d, cmd, Nak(NAK_ENCRYPTION_REQUIRED)).device == d
  {
    hide Build;
  }

  /** A keyed device without session answers a clear command other than ID, CAP
      and COMSET with NAK 0x06, at every sequence number, and does nothing. */
  lemma {:induction false} KeyedDeviceRefuses(c: Cipher, cfg: Config, d: Device, cmd: Frame, raw: seq<byte>, app: App)
    requires !cmd.hasScb && !d.session.established && d.scbk.Some? && cmd.address < 128 && cmd.sequence < 4
    requires cmd.code != 0x61 && cmd.code != 0x62 && cmd.code != 0x6E
    ensures var h := Handle(c, cfg, d, cmd, raw, app);
            && h.device == d
            && (if Exchanges.ReplyFits(cfg.txCap, false, cmd.integrity, 1) then IsNak(h.reply, cmd, 0x06) else h.reply == [])
  {
    hide AnswerPlain, IsNak, Exchanges.ReplyFits, Build;
    NakIsSent(cfg, d, cmd, NAK_ENCRYPTION_REQUIRED);
  }

  /** Exactly which clear commands reach the dispatch. */
  lemma {:induction false} ClearDispatchIff(c: Cipher, cfg: Config, d: Device, cmd: Frame, raw: seq<byte>, app: App)
    requires !cmd.hasScb
    ensures var e := Handle(c, cfg, d, cmd, raw, app).device;
            if !(d.session.established && cmd.sequence != 0)
               && (d.scbk.None? || cmd.code == 0x61 || cmd.code == 0x62 || cmd.code == 0x6E)
            then
              && |e.log| == |d.log| + 1 && e.log[|d.log|].channel == Plain
              && e.log[|d.log|].code == cmd.code && e.log[|d.log|].payload == cmd.payload
            else e.log == d.log && e.scbk == d.scbk && e.queue == d.queue
  {
    hide Build, Decide;
    var d1 := if d.session.established then DropSession(d) else d;
    DecideKeeps(d1, cmd.code, cmd.payload, app);
  }

  /** An event is taken over exactly if the queue has room, and recorded then. */
  lemma {:induction false} OfferIff(cfg: Config, d: Device, e: Event)
    ensures Offer(cfg, d, e) ==
            if |e.payload| <= 0xFFFF && Size(d.queue) + 3 + |e.payload| <= cfg.queueCap
            then d.(queue := d.queue + [e], accepted := d.accepted + [e]) else d
  {
    hide Packed, Enqueue;
    EnqueueIff(d.queue, cfg.queueCap, e);
  }

  /** A security block that the device cannot serve gets NAK 0x05: no Secure
      Channel set up, an unknown type, or secured traffic without a session. */
  lemma {:induction false} UnservedScb(c: Cipher, cfg: Config, d: Device, cmd: Frame, raw: seq<byte>, app: App)
    requires cmd.hasScb && cmd.address < 128 && cmd.sequence < 4
    requires !ScConfigured(cfg, d) || cmd.scbType !in {0x11, 0x13, 0x15, 0x17}
             || (cmd.scbType in {0x15, 0x17} && !d.session.established)
    ensures var h := Handle(c, cfg, d, cmd, raw, app);
            && h.device == d
            && (if Exchanges.ReplyFits(cfg.txCap, false, cmd.integrity, 1) then IsNak(h.reply, cmd, 0x05) else h.reply == [])
  {
    hide AnswerPlain, IsNak, Exchanges.ReplyFits, Build;
    NakIsSent(cfg, d, cmd, NAK_UNSUPPORTED_SCB);
  }

  /** COMSET: a payload of five bytes is answered with the settings that come into
      force, which are the application's unless its address is out of range; the
      address changes once the reply is out. Any other length gets NAK 0x02. */
  lemma {:induction false} ComsetOutcome(c: Cipher, cfg: Config, d: Device, cmd: Frame, raw: seq<byte>, app: App)
    requires cmd.code == 0x6E && !cmd.hasScb && !d.session.established && d.newAddress.None? && !IsRetransmit(d, cmd, raw)
    ensures var e := Process(c, cfg, d, cmd, raw, app).device;
            var addr := if app.comAddress > 0x7E then d.address else app.comAddress;
            && |e.log| == |d.log| + 1
            && (if |cmd.payload| == 5 then
                  && e.address == addr && !e.haveLast
                  && e.log[|d.log|].result ==
                     Reply(0x54, [addr, app.comBaud.0, app.comBaud.1, app.comBaud.2, app.comBaud.3])
                else e.address == d.address && e.log[|d.log|].result == Reply(0x41, [0x02]))
  {
    hide Build;
  }

  // ---- KEYSET ----

  /** A KEYSET record on the wire: key type 1 (SCBK), sixteen bytes, the key. */
  predicate CarriesKey(payload: seq<byte>, key: Block) {
    payload == [0x01, 0x10] + key
  }

  lemma {:induction false} KeysetKeyIff(payload: seq<byte>, key: Block)
    ensures KeysetKey(payload) == Some(key) <==> CarriesKey(payload, key)
  {
    if |payload| == 2 + BLOCK {
      assert payload == payload[..2] + payload[2..];
    }
  }

  /** What a KEYSET with payload `p` does, given what the application says: it
      rotates the key when the application gives a reply at all, be it a NAK, and
      any other record turns that reply into NAK 0x09. */
  ghost predicate KeysetDone(d: Device, e: Device, p: seq<byte>, app: App) {
    && |e.log| == |d.log| + 1 && e.log[|d.log|].payload == p
    && (!app.verdict.Reply? ==> e.scbk == d.scbk && e.log[|d.log|].result == app.verdict)
    && (forall key: Block :: CarriesKey(p, key) && app.verdict.Reply? ==>
          e.scbk == Some(key) && e.log[|d.log|].result == app.verdict)
    && ((forall key: Block :: !CarriesKey(p, key)) && app.verdict.Reply? ==>
          e.scbk == d.scbk && e.log[|d.log|].result == Reply(REPLY_NAK, [0x09]))
  }

  lemma {:induction false} KeysetOutcome(c: Cipher, cfg: Config, d: Device, cmd: Frame, raw: seq<byte>, app: App)
    requires cmd.code == CMD_KEYSET && !IsRetransmit(d, cmd, raw)
    requires Reaching(c, cfg, d, cmd, raw).Some?
    ensures KeysetDone(d, Process(c, cfg, d, cmd, raw, app).device, Reaching(c, cfg, d, cmd, raw).value, app)
  {
    hide HandlePlain, HandleOperational, Unwrap, KeysetKey, KeysetDone;
    if cmd.hasScb {
      var u := Unwrap(c, d.session, cmd, raw, cfg.plainCap).value;
      OperationalKeyset(c, cfg, d, cmd, raw, app, u);
      KeysetDoneLater(d, HandleOperational(c, cfg, d, cmd, raw, app).device, Process(c, cfg, d, cmd, raw, app).device, u.plain, app);
    } else {
      PlainKeyset(cfg, d, cmd, app);
      KeysetDoneLater(d, HandlePlain(cfg, d, cmd, app).device, Process(c, cfg, d, cmd, raw, app).device, cmd.payload, app);
    }
  }

  lemma {:induction false} KeysetDoneLater(d: Device, e: Device, f: Device, p: seq<byte>, app: App)
    requires KeysetDone(d, e, p, app) && f.log == e.log && f.scbk == e.scbk
    ensures KeysetDone(d, f, p, app)
  {}

  lemma {:induction false} KeysetDecision(d: Device, p: seq<byte>, app: App)
    ensures var x := Decide(d, CMD_KEYSET, p, app);
            && (!app.verdict.Reply? ==> x.device == d && x.result == app.verdict)
            && (forall key: Block :: CarriesKey(p, key) && app.verdict.Reply? ==>
                  x.device == d.(scbk := Some(key)) && x.result == app.verdict)
            && ((forall key: Block :: !CarriesKey(p, key)) && app.verdict.Reply? ==>
                  x.device == d && x.result == Reply(REPLY_NAK, [0x09]))
  {
    hide KeysetKey, CarriesKey;
    forall key: Block
      ensures KeysetKey(p) == Some(key) <==> CarriesKey(p, key)
    {
      KeysetKeyIff(p, key);
    }
  }

  lemma {:induction false} PlainKeyset(cfg: Config, d: Device, cmd: Frame, app: App)
    requires cmd.code == CMD_KEYSET && d.scbk.None?
    requires d.session.established ==> cmd.sequence == 0
    ensures KeysetDone(d, HandlePlain(cfg, d, cmd, app).device, cmd.payload, app)
  {
    hide Build, Decide, CarriesKey;
    var d1 := if d.session.established then DropSession(d) else d;
    KeysetDecision(d1, cmd.payload, app);
    DecideKeeps(d1, cmd.code, cmd.payload, app);
  }

  lemma {:induction false} OperationalKeyset(c: Cipher, cfg: Config, d: Device, cmd: Frame, raw: seq<byte>, app: App, u: Unwrapped)
    requires cmd.code == CMD_KEYSET && d.session.established
    requires Unwrap(c, d.session, cmd, raw, cfg.plainCap) == Success(u)
    ensures KeysetDone(d, HandleOperational(c, cfg, d, cmd, raw, app).device, u.plain, app)
  {
    hide Build, Wrap, Unwrap, Decide, CarriesKey;
    var d1 := d.(session := AfterUnwrap(d.session, u));
    KeysetDecision(d1, u.plain, app);
    DecideKeeps(d1, cmd.code, u.plain, app);
  }

  /** No command touches the default key. */
  lemma {:induction false} DefaultKeyStays(c: Cipher, cfg: Config, d: Device, raw: seq<byte>, app: App)
    ensures Receive(c, cfg, d, raw, app).device.scbkD == d.scbkD
  {
    hide Decode, Handle, AnswerBadCheck;
    if Decode(raw).Success? {
      HandleKeepsDefault(c, cfg, d, Decode(raw).value, raw, app);
    }
  }

  lemma {:induction false} HandleKeepsDefault(c: Cipher, cfg: Config, d: Device, cmd: Frame, raw: seq<byte>, app: App)
    ensures Handle(c, cfg, d, cmd, raw, app).device.scbkD == d.scbkD
  {
    hide Build, Wrap, Unwrap, Decide, Derive, ClientCryptogram, ServerCryptogram, InitialRmac;
    var d1 := if d.session.established then DropSession(d) else d;
    DecideKeeps(d1, cmd.code, cmd.payload, app);
    if Unwrap(c, d.session, cmd, raw, cfg.plainCap).Success? {
      var u := Unwrap(c, d.session, cmd, raw, cfg.plainCap).value;
      DecideKeeps(d.(session := AfterUnwrap(d.session, u)), cmd.code, u.plain, app);
    }
  }

  // ---- Secure mode ----

  /** Everything that can happen to a device. */
  datatype Input =
    | Received(raw: seq<byte>, app: App)
    | SetScbk(key: Block)
    | SetDefaultKey(key: Block)
    | SetCrypto
    | Silence
    | Queued(event: Event)

  function Apply(c: Cipher, cfg: Config, d: Device, input: Input): Device {
    match input
    case Received(raw, app) => Receive(c, cfg, d, raw, app).device
    case SetScbk(key) => d.(scbk := Some(key))
    case SetDefaultKey(key) => d.(scbkD := Some(key))
    case SetCrypto => DropSession(d)
    case Silence => GoOffline(d)
    case Queued(e) => Offer(cfg, d, e)
  }

  function Run(c: Cipher, cfg: Config, d: Device, inputs: seq<Input>): Device
    decreases |inputs|
  {
    if inputs == [] then d
    else Apply(c, cfg, Run(c, cfg, d, inputs[..|inputs| - 1]), inputs[|inputs| - 1])
  }

  /** The received frame is a KEYSET whose MAC verifies in the session the device
      holds, carrying `key` on the wire. */
  predicate VerifiedKeyset(c: Cipher, cfg: Config, d: Device, raw: seq<byte>, key: Block) {
    && d.session.established && Decode(raw).Success?
    && var cmd := Decode(raw).value;
    && cmd.hasScb && cmd.code == CMD_KEYSET
    && Unwrap(c, d.session, cmd, raw, cfg.plainCap).Success?
    && CarriesKey(Unwrap(c, d.session, cmd, raw, cfg.plainCap).value.plain, key)
  }

  predicate AuthorizesKey(c: Cipher, cfg: Config, d: Device, input: Input, key: Block) {
    match input
    case Received(raw, app) => VerifiedKeyset(c, cfg, d, raw, key)
    case SetScbk(k) => k == key
    case _ => false
  }

  /** A device grew its record only by entries that secure mode allows. */
  predicate OnlyAllowed(before: seq<Entry>, after: seq<Entry>) {
    && before <= after
    && forall i :: |before| <= i < |after| && after[i].channel == Plain ==> AllowedInClear(after[i].code)
  }

  lemma {:induction false} DecideKeys(d: Device, code: byte, payload: seq<byte>, app: App)
    ensures var e := Decide(d, code, payload, app).device;
            && e.log == d.log && (d.scbk.Some? ==> e.scbk.Some?)
            && (e.scbk != d.scbk ==> code == CMD_KEYSET && e.scbk.Some? && CarriesKey(payload, e.scbk.value))
  {
    if KeysetKey(payload).Some? {
      KeysetKeyIff(payload, KeysetKey(payload).value);
    }
  }

  predicate PolicyKept(c: Cipher, cfg: Config, d: Device, raw: seq<byte>, e: Device) {
    && e.scbk.Some? && OnlyAllowed(d.log, e.log)
    && (e.scbk != d.scbk ==> VerifiedKeyset(c, cfg, d, raw, e.scbk.value))
  }

  lemma {:induction false} PlainPolicy(c: Cipher, cfg: Config, d: Device, cmd: Frame, raw: seq<byte>, app: App)
    requires d.scbk.Some? && !cmd.hasScb
    ensures PolicyKept(c, cfg, d, raw, HandlePlain(cfg, d, cmd, app).device)
  {
    hide Build, Decide, VerifiedKeyset, KeysetKey;
    var d1 := if d.session.established then DropSession(d) else d;
    DecideKeys(d1, cmd.code, cmd.payload, app);
  }

  lemma {:induction false} OperationalPolicy(c: Cipher, cfg: Config, d: Device, cmd: Frame, raw: seq<byte>, app: App)
    requires d.scbk.Some? && Decode(raw) == Success(cmd) && cmd.hasScb
    ensures PolicyKept(c, cfg, d, raw, HandleOperational(c, cfg, d, cmd, raw, app).device)
  {
    hide Decode, Build, Unwrap, Wrap, Decide, KeysetKey;
    match Unwrap(c, d.session, cmd, raw, cfg.plainCap)
    case Failure(_) =>
    case Success(u) => DecideKeys(d.(session := AfterUnwrap(d.session, u)), cmd.code, u.plain, app);
  }

  lemma {:induction false} HandlePolicy(c: Cipher, cfg: Config, d: Device, cmd: Frame, raw: seq<byte>, app: App)
    requires d.scbk.Some? && Decode(raw) == Success(cmd)
    ensures PolicyKept(c, cfg, d, raw, Handle(c, cfg, d, cmd, raw, app).device)
  {
    hide Decode, Build, HandleOperational, HandlePlain, VerifiedKeyset;
    if cmd.hasScb {
      OperationalPolicy(c, cfg, d, cmd, raw, app);
    } else {
      PlainPolicy(c, cfg, d, cmd, raw, app);
    }
  }

  lemma {:induction false} ApplyPolicy(c: Cipher, cfg: Config, d: Device, input: Input)
    requires d.scbk.Some?
    ensures var e := Apply(c, cfg, d, input);
            && e.scbk.Some? && OnlyAllowed(d.log, e.log)
            && (e.scbk != d.scbk ==> AuthorizesKey(c, cfg, d, input, e.scbk.value))
  {
    hide Decode, Handle, VerifiedKeyset, Packed;
    if input.Received? && Decode(input.raw).Success? {
      HandlePolicy(c, cfg, d, Decode(input.raw).value, input.raw, input.app);
    }
  }

  /** Secure-mode policy. Once an operational key is set, whatever is received in
      whatever order, no clear-text command other than ID, CAP or COMSET reaches
      the dispatch. */
  lemma {:induction false} ClearTextNeverDispatched(c: Cipher, cfg: Config, d: Device, inputs: seq<Input>)
    requires d.scbk.Some?
    ensures var e := Run(c, cfg, d, inputs);
            e.scbk.Some? && OnlyAllowed(d.log, e.log)
    decreases |inputs|
  {
    hide Apply;
    if inputs != [] {
      var n := |inputs| - 1;
      ClearTextNeverDispatched(c, cfg, d, inputs[..n]);
      ApplyPolicy(c, cfg, Run(c, cfg, d, inputs[..n]), inputs[n]);
    }
  }

  /** And the stored key changes only by the local setter or by a KEYSET that
      verified in an established session: a run without either keeps the key. */
  lemma {:induction false} KeyChangesOnlyByAuthority(c: Cipher, cfg: Config, d: Device, inputs: seq<Input>)
    requires d.scbk.Some?
    ensures Run(c, cfg, d, inputs).scbk == d.scbk ||
            exists i :: 0 <= i < |inputs| && Run(c, cfg, d, inputs).scbk.Some? &&
                        AuthorizesKey(c, cfg, Run(c, cfg, d, inputs[..i]), inputs[i], Run(c, cfg, d, inputs).scbk.value)
    decreases |inputs|
  {
    hide Apply, AuthorizesKey;
    if inputs != [] {
      var n := |inputs| - 1;
      var before := Run(c, cfg, d, inputs[..n]);
      var after := Run(c, cfg, d, inputs);
      ClearTextNeverDispatched(c, cfg, d, inputs[..n]);
      ApplyPolicy(c, cfg, before, inputs[n]);
      if after.scbk == before.scbk {
        KeyChangesOnlyByAuthority(c, cfg, d, inputs[..n]);
        if before.scbk != d.scbk {
          var i :| 0 <= i < n && AuthorizesKey(c, cfg, Run(c, cfg, d, inputs[..n][..i]), inputs[..n][i], before.scbk.value);
          assert inputs[..n][..i] == inputs[..i];
        }
      }
    }
  }
}
